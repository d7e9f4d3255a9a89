/** kernel/boot/e820.cpp: turning the firmware's overlapping ranges into disjoint typed pieces. */
module E820 {
  import opened FixedArray
  import opened MemoryPieces
  import opened Sweep
  import Sorting

  const MAX_ENTRIES := 20

  /** The pieces are the canonical reading of the ranges: at every address the type of the piece
      there is the greatest type of the ranges covering it, and no piece where there is none. */
  ghost predicate Sanitized(es: seq<Entry>, ps: seq<Entry>) {
    Canonical(ps) && Same(ps, es)
  }

  /** Ranges that say the same of every address give the same pieces, however they are cut or ordered. */
  lemma SanitizedUnique(es: seq<Entry>, es': seq<Entry>, ps: seq<Entry>, ps': seq<Entry>)
    requires Sanitized(es, ps) && Sanitized(es', ps') && Same(es, es')
    ensures ps == ps'
  {
    forall a ensures TypeAt(ps, a) == TypeAt(ps', a) {
      assert TypeAt(es, a) == TypeAt(es', a);
    }
    CanonicalUnique(ps, ps');
  }

  ghost predicate Lists(s: seq<int>, members: set<int>) {
    NoDuplicates(s) && forall i :: i in s <==> i in members
  }

  lemma {:induction false} FewEntries(s: seq<int>, n: int)
    requires NoDuplicates(s) && forall i :: i in s ==> 0 <= i < n
    ensures s == [] || |s| <= n
    decreases n
  {
    if s != [] {
      assert s[0] in s;
      if n - 1 in s {
        var k :| 0 <= k < |s| && s[k] == n - 1;
        var rest := s[..k] + s[k + 1..];
        RemoveKeeps(s, k);
        forall i | i in rest ensures 0 <= i < n - 1 { assert i in s && i != s[k]; }
        FewEntries(rest, n - 1);
      } else {
        forall i | i in s ensures 0 <= i < n - 1 {}
        FewEntries(s, n - 1);
      }
    }
  }

  lemma RemoveKeeps(s: seq<int>, k: int)
    requires NoDuplicates(s) && 0 <= k < |s|
    ensures NoDuplicates(s[..k] + s[k + 1..])
    ensures forall i :: i in s[..k] + s[k + 1..] <==> i in s && i != s[k]
  {
    var rest := s[..k] + s[k + 1..];
    assert s == s[..k] + [s[k]] + s[k + 1..];
    assert forall j :: 0 <= j < |rest| ==> rest[j] == s[if j < k then j else j + 1];
  }

  /** Opens or closes the entry of point `k`. */
  method UpdateOverlaps(entries: seq<Entry>, ghost cps: seq<ChangePoint>, ghost k: int, changePoint: ChangePoint,
                        overlaps: FixedArray<int>)
    requires |entries| <= MAX_ENTRIES && Ranges(entries)
    requires SweepOrder(entries, cps) && 0 <= k < |cps| && cps[k] == changePoint
    requires overlaps.Valid() && overlaps.data.Length == MAX_ENTRIES
    requires Lists(overlaps.Contents(), OpenSet(entries, cps, k))
    modifies overlaps, overlaps.data
    ensures overlaps.Valid() && Lists(overlaps.Contents(), OpenSet(entries, cps, k + 1))
  {
    OpenStep(entries, cps, k);
    ghost var was := overlaps.Contents();
    if changePoint.addr == entries[changePoint.entry].base {
      FewEntries(was + [changePoint.entry], |entries|);
      var ok := overlaps.Insert(changePoint.entry);
      assert ok;
    } else {
      var idx := overlaps.Find(changePoint.entry);
      if idx != overlaps.size {
        RemoveKeeps(was, idx);
        overlaps.Remove(idx);
      }
    }
  }

  /** The greatest type among the open entries. */
  method TopType(entries: seq<Entry>, overlaps: FixedArray<int>, ghost open: set<int>) returns (currType: int)
    requires overlaps.Valid() && Lists(overlaps.Contents(), open)
    requires Ranges(entries) && forall i :: i in open ==> 0 <= i < |entries|
    ensures IsTop(entries, open, currType)
  {
    currType := 0;
    var j := 0;
    while j < overlaps.size
      invariant 0 <= j <= overlaps.size
      invariant currType >= 0
      invariant forall l :: 0 <= l < j ==>
                  overlaps.Contents()[l] in open && entries[overlaps.Contents()[l]].kind <= currType
      invariant currType != 0 ==> exists i :: i in open && entries[i].kind == currType
    {
      var i := overlaps.data[j];
      assert i == overlaps.Contents()[j] && i in open;
      if entries[i].kind > currType {
        currType := entries[i].kind;
      }
      j := j + 1;
    }
    forall i | i in open ensures entries[i].kind <= currType {
      var l :| 0 <= l < |overlaps.Contents()| && overlaps.Contents()[l] == i;
    }
  }

  /** `pieces` starts empty. The call fails, as a failed assertion does, exactly when no list of
      disjoint pieces that fits says what the ranges say. */
  method SanitizeMap(entries: seq<Entry>, pieces: FixedArray<Entry>) returns (ok: bool)
    requires |entries| <= MAX_ENTRIES && Ranges(entries)
    requires pieces.Valid() && pieces.Contents() == []
    modifies pieces, pieces.data
    ensures pieces.Valid()
    ensures ok ==> Sanitized(entries, pieces.Contents())
    ensures !ok ==> forall ps :: Sanitized(entries, ps) ==> |ps| > pieces.data.Length
    ensures ok && entries != [] ==> |pieces.Contents()| <= 2 * |entries| - 1
    ensures 2 * |entries| - 1 <= pieces.data.Length ==> ok
  {
    hide SweepOrder, Points, Sanitized;
    var changePoints := new FixedArray<ChangePoint>(2 * MAX_ENTRIES);
    CollectPoints(entries, changePoints);
    SortPoints(entries, changePoints);
    var overlaps := new FixedArray<int>(MAX_ENTRIES);
    ok := TakePoints(entries, changePoints, overlaps, pieces);
  }

  /** The sweep over the sorted points. */
  method TakePoints(entries: seq<Entry>, changePoints: FixedArray<ChangePoint>, overlaps: FixedArray<int>,
                    pieces: FixedArray<Entry>) returns (ok: bool)
    requires |entries| <= MAX_ENTRIES && Ranges(entries)
    requires changePoints.Valid() && SweepOrder(entries, changePoints.Contents())
    requires overlaps.Valid() && overlaps.data.Length == MAX_ENTRIES && overlaps.Contents() == []
    requires pieces.Valid() && pieces.Contents() == []
    requires overlaps as object != pieces && overlaps.data as object != pieces.data
    requires changePoints as object !in {overlaps as object, pieces as object}
    requires changePoints.data as object !in {overlaps.data as object, pieces.data as object}
    modifies overlaps, overlaps.data, pieces, pieces.data
    ensures pieces.Valid()
    ensures ok ==> Sanitized(entries, pieces.Contents())
    ensures !ok ==> forall ps :: Sanitized(entries, ps) ==> |ps| > pieces.data.Length
    ensures !ok ==> pieces.data.Length + 1 < |changePoints.Contents()|
    ensures ok ==> |pieces.Contents()| <= (if |changePoints.Contents()| == 0 then 0 else |changePoints.Contents()| - 1)
  {
    hide Swept, SweepOrder, OpenSet, Sanitized, Ranges, Lists;
    ghost var cps := changePoints.Contents();
    var prevType := 0;
    var newEntry := Entry(0, 0, 0);
    var k := 0;
    SweptStart(entries, cps, newEntry);
    NothingOpen(entries, cps);
    NothingListed();
    while k < changePoints.size
      invariant changePoints.Valid() && changePoints.Contents() == cps && 0 <= k <= |cps| == changePoints.size
      invariant overlaps.Valid() && overlaps.data.Length == MAX_ENTRIES && pieces.Valid()
      invariant Lists(overlaps.Contents(), OpenSet(entries, cps, k))
      invariant Swept(entries, cps, k, pieces.Contents(), newEntry, prevType)
    {
      ok, newEntry, prevType := TakePoint(entries, cps, k, changePoints.data[k], overlaps, pieces, newEntry, prevType);
      if !ok {
        return;
      }
      k := k + 1;
    }
    SweptSanitized(entries, cps, pieces.Contents(), newEntry, prevType);
    ok := true;
  }

  lemma NothingListed()
    ensures Lists([], {})
  {
  }

  lemma SweptSanitized(es: seq<Entry>, cps: seq<ChangePoint>, ps: seq<Entry>, cur: Entry, prev: int)
    requires Ranges(es) && SweepOrder(es, cps) && Swept(es, cps, |cps|, ps, cur, prev)
    ensures Sanitized(es, ps) && |ps| <= (if cps == [] then 0 else |cps| - 1)
  {
    SweptEnd(es, cps, |cps|, ps, cur, prev);
  }

  /** The body of the sweep loop for one change point. */
  method TakePoint(entries: seq<Entry>, ghost cps: seq<ChangePoint>, ghost k: int, changePoint: ChangePoint,
                   overlaps: FixedArray<int>, pieces: FixedArray<Entry>, cur: Entry, prevType: int)
    returns (ok: bool, newEntry: Entry, currType: int)
    requires |entries| <= MAX_ENTRIES && Ranges(entries)
    requires SweepOrder(entries, cps) && 0 <= k < |cps| && cps[k] == changePoint
    requires overlaps.Valid() && overlaps.data.Length == MAX_ENTRIES && pieces.Valid()
    requires overlaps as object != pieces && overlaps.data as object != pieces.data
    requires Lists(overlaps.Contents(), OpenSet(entries, cps, k))
    requires Swept(entries, cps, k, pieces.Contents(), cur, prevType)
    modifies overlaps, overlaps.data, pieces, pieces.data
    ensures overlaps.Valid() && pieces.Valid()
    ensures ok ==> Lists(overlaps.Contents(), OpenSet(entries, cps, k + 1))
    ensures ok ==> Swept(entries, cps, k + 1, pieces.Contents(), newEntry, currType)
    ensures !ok ==> forall ps :: Sanitized(entries, ps) ==> |ps| > pieces.data.Length
    ensures !ok ==> pieces.data.Length + 1 <= k
  {
    hide Swept, SweepOrder, Sanitized, OpenSet;
    ghost var was := pieces.Contents();
    ghost var open := OpenSet(entries, cps, k + 1);
    SweptFacts(entries, cps, k, was, cur, prevType, open);
    newEntry := cur;
    UpdateOverlaps(entries, cps, k, changePoint, overlaps);
    currType := TopType(entries, overlaps, open);
    if currType != prevType {
      if prevType != 0 && changePoint.addr - newEntry.base != 0 {
        newEntry := newEntry.(length := changePoint.addr - newEntry.base);
        ok := pieces.Insert(newEntry);
        if !ok {
          TooManyPieces(entries, cps, k, was, cur, prevType, currType);
          return;
        }
      }
      if currType != 0 {
        newEntry := newEntry.(base := changePoint.addr, kind := currType);
      }
    }
    StepKeeps(entries, cps, k, was, cur, prevType, currType, newEntry);
    ok := true;
  }

  lemma SweptFacts(es: seq<Entry>, cps: seq<ChangePoint>, k: int, ps: seq<Entry>, cur: Entry, prev: int, open: set<int>)
    requires 0 <= k < |cps| && Swept(es, cps, k, ps, cur, prev) && open == OpenSet(es, cps, k + 1)
    ensures prev >= 0 && forall i :: i in open ==> 0 <= i < |es|
  {
  }

  /** When point `k` needs one more piece than fit, so does every canonical reading. */
  lemma TooManyPieces(es: seq<Entry>, cps: seq<ChangePoint>, k: int, ps: seq<Entry>, cur: Entry, prev: int, curr: int)
    requires Ranges(es) && SweepOrder(es, cps) && 0 <= k < |cps| && Swept(es, cps, k, ps, cur, prev)
    requires curr >= 0 && curr != prev && prev != 0 && cps[k].addr != cur.base
    ensures forall qs :: Sanitized(es, qs) ==> |qs| > |ps|
    ensures |ps| + 1 <= k
  {
    var addr := cps[k].addr;
    var ps' := NextPieces(ps, cur, prev, curr, addr);
    PointOrder(es, cps, k);
    StepCanonical(es, cps, k, ps, cur, prev, curr);
    forall qs | Sanitized(es, qs) ensures |qs| > |ps| {
      forall a | a < addr ensures TypeAt(ps', a) == TypeAt(qs, a) {
        SettledStays(ps, cur, prev, curr, addr, Entry(addr, 0, curr), a);
        assert TypeAt(es, a) == Built(ps, cur, prev, a);
      }
      ShortestBelow(ps', qs, addr);
    }
  }

  method SortPoints(entries: seq<Entry>, changePoints: FixedArray<ChangePoint>)
    requires Ranges(entries) && changePoints.Valid() && changePoints.Contents() == Points(entries, |entries|)
    modifies changePoints.data
    ensures changePoints.Valid() && SweepOrder(entries, changePoints.Contents())
    ensures |changePoints.Contents()| <= 2 * |entries|
  {
    EarlierAgrees(entries);
    Sorting.Sort(changePoints.data, changePoints.size, (p, q) => Earlier(entries, p, q),
                 (p, q) => NotAfter(entries, p, q));
    SortedIsSweepOrder(entries, changePoints.Contents());
  }

  method CollectPoints(entries: seq<Entry>, changePoints: FixedArray<ChangePoint>)
    requires Ranges(entries) && changePoints.Valid() && changePoints.Contents() == []
    requires 2 * |entries| <= changePoints.data.Length
    modifies changePoints, changePoints.data
    ensures changePoints.Valid() && changePoints.Contents() == Points(entries, |entries|)
  {
    var i := 0;
    while i < |entries|
      invariant 0 <= i <= |entries|
      invariant changePoints.Valid() && changePoints.Contents() == Points(entries, i)
    {
      var entry := entries[i];
      if entry.length != 0 {
        var ok := changePoints.Insert(ChangePoint(entry.base, i));
        ok := changePoints.Insert(ChangePoint(entry.base + entry.length, i));
      }
      i := i + 1;
    }
  }
}
