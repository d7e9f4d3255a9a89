/** The sweep of kernel/boot/e820.cpp as a relation between change points taken and pieces out. */
module Sweep {
  import opened MemoryPieces
  import Sorting

  /** An end of entry number `entry`; the source keeps a pointer to the entry instead. */
  datatype ChangePoint = ChangePoint(addr: int, entry: int)

  predicate IsStart(es: seq<Entry>, p: ChangePoint) {
    0 <= p.entry < |es| && p.addr == es[p.entry].base
  }

  /** The comparator of sanitizeMap: on equal addresses it only asks whether the left is a start. */
  predicate Earlier(es: seq<Entry>, p: ChangePoint, q: ChangePoint) {
    if p.addr == q.addr then IsStart(es, p) else p.addr < q.addr
  }

  /** The order it sorts by: addresses, starts before ends. */
  predicate NotAfter(es: seq<Entry>, p: ChangePoint, q: ChangePoint) {
    p.addr < q.addr || (p.addr == q.addr && (IsStart(es, p) || !IsStart(es, q)))
  }

  lemma EarlierAgrees(es: seq<Entry>)
    ensures Sorting.Agrees((p, q) => Earlier(es, p, q), (p, q) => NotAfter(es, p, q))
  {
  }

  function Start(es: seq<Entry>, i: int): ChangePoint
    requires 0 <= i < |es|
  {
    ChangePoint(es[i].base, i)
  }

  function Finish(es: seq<Entry>, i: int): ChangePoint
    requires 0 <= i < |es|
  {
    ChangePoint(End(es[i]), i)
  }

  /** The change points of the first `n` entries, in the order they are inserted. */
  ghost function Points(es: seq<Entry>, n: int): (ps: seq<ChangePoint>)
    requires 0 <= n <= |es|
    ensures |ps| <= 2 * n
  {
    if n == 0 then []
    else if es[n - 1].length == 0 then Points(es, n - 1)
    else Points(es, n - 1) + [Start(es, n - 1), Finish(es, n - 1)]
  }

  /** Ranges of the 64-bit address space: none wraps around its end. */
  ghost predicate Ranges(es: seq<Entry>) {
    forall i :: 0 <= i < |es| ==> InAddressSpace(es[i]) && 0 <= es[i].length && 0 <= es[i].kind
  }

  predicate InAddressSpace(e: Entry) {
    0 <= e.base && End(e) < 0x1_0000_0000_0000_0000 && e.kind < 0x1_0000
  }

  ghost predicate NoDuplicates<T(!new)>(s: seq<T>) {
    forall i, j :: 0 <= i < j < |s| ==> s[i] != s[j]
  }

  /** All change points once each, in sweep order. */
  ghost predicate SweepOrder(es: seq<Entry>, cps: seq<ChangePoint>) {
    && (forall k :: 0 <= k < |cps| ==>
          0 <= cps[k].entry < |es| && es[cps[k].entry].length > 0
          && (cps[k] == Start(es, cps[k].entry) || cps[k] == Finish(es, cps[k].entry)))
    && (forall i {:trigger Start(es, i)} {:trigger Finish(es, i)} ::
          0 <= i < |es| && es[i].length > 0 ==> Start(es, i) in cps && Finish(es, i) in cps)
    && NoDuplicates(cps)
    && (forall k, l {:trigger NotAfter(es, cps[k], cps[l])} ::
          0 <= k < l < |cps| ==> NotAfter(es, cps[k], cps[l]))
  }

  lemma AppendTwo<T(!new)>(ps: seq<T>, s: T, f: T)
    requires NoDuplicates(ps) && s !in ps && f !in ps && s != f
    ensures NoDuplicates(ps + [s, f])
    ensures forall p :: p in ps + [s, f] <==> p in ps || p == s || p == f
  {
  }

  predicate PointOf(es: seq<Entry>, n: int, p: ChangePoint)
    requires n <= |es|
  {
    0 <= p.entry < n && es[p.entry].length > 0 && (p == Start(es, p.entry) || p == Finish(es, p.entry))
  }

  lemma {:induction false} PointsComplete(es: seq<Entry>, n: int)
    requires Ranges(es) && 0 <= n <= |es|
    ensures forall p :: p in Points(es, n) <==> PointOf(es, n, p)
    ensures NoDuplicates(Points(es, n))
    decreases n
  {
    hide InAddressSpace;
    if n > 0 {
      PointsComplete(es, n - 1);
      var ps, s, f := Points(es, n - 1), Start(es, n - 1), Finish(es, n - 1);
      assert forall p :: PointOf(es, n, p) <==> PointOf(es, n - 1, p) || (es[n - 1].length > 0 && (p == s || p == f));
      if es[n - 1].length != 0 {
        AppendTwo(ps, s, f);
        assert Points(es, n) == ps + [s, f];
      }
    }
  }

  lemma PermutedNoDuplicates<T(!new)>(s: seq<T>, t: seq<T>)
    requires NoDuplicates(s) && multiset(s) == multiset(t)
    ensures NoDuplicates(t)
  {
    forall i, j | 0 <= i < j < |t| ensures t[i] != t[j] {
      if t[i] == t[j] {
        assert t == t[..j] + t[j..];
        assert t[i] in t[..j] && t[j] in t[j..];
        assert multiset(t)[t[i]] >= 2;
        OccursOnce(s, t[i]);
      }
    }
  }

  lemma {:induction false} OccursOnce<T(!new)>(s: seq<T>, x: T)
    requires NoDuplicates(s)
    ensures multiset(s)[x] <= 1
  {
    if s != [] {
      var n := |s| - 1;
      OccursOnce(s[..n], x);
      assert s == s[..n] + [s[n]];
      assert s[n] !in s[..n];
    }
  }

  lemma ArrangedPoints(es: seq<Entry>, cps: seq<ChangePoint>)
    requires Ranges(es) && multiset(cps) == multiset(Points(es, |es|))
    ensures NoDuplicates(cps) && forall p :: p in cps <==> PointOf(es, |es|, p)
  {
    hide InAddressSpace, Points, PointOf, NoDuplicates;
    PointsComplete(es, |es|);
    PermutedNoDuplicates(Points(es, |es|), cps);
    SameMembers(Points(es, |es|), cps);
  }

  lemma InSweepOrder(es: seq<Entry>, cps: seq<ChangePoint>)
    requires NoDuplicates(cps) && forall p :: p in cps <==> PointOf(es, |es|, p)
    requires forall k, l {:trigger NotAfter(es, cps[k], cps[l])} :: 0 <= k < l < |cps| ==> NotAfter(es, cps[k], cps[l])
    ensures SweepOrder(es, cps)
  {
    hide NoDuplicates, NotAfter;
    forall k | 0 <= k < |cps| ensures PointOf(es, |es|, cps[k]) {
      assert cps[k] in cps;
    }
    forall i | 0 <= i < |es| && es[i].length > 0 ensures Start(es, i) in cps && Finish(es, i) in cps {
      assert PointOf(es, |es|, Start(es, i)) && PointOf(es, |es|, Finish(es, i));
    }
  }

  /** Any arrangement of the points sorted by the comparator's order is a sweep order. */
  lemma SortedIsSweepOrder(es: seq<Entry>, cps: seq<ChangePoint>)
    requires Ranges(es)
    requires multiset(cps) == multiset(Points(es, |es|))
    requires Sorting.SortedBy(cps, (p, q) => NotAfter(es, p, q))
    ensures SweepOrder(es, cps)
  {
    hide Ranges, Points, PointOf, NoDuplicates, NotAfter, SweepOrder;
    ArrangedPoints(es, cps);
    SortedNotAfter(es, cps);
    InSweepOrder(es, cps);
  }

  lemma SameMembers<T>(s: seq<T>, t: seq<T>)
    requires multiset(s) == multiset(t)
    ensures forall p :: p in s <==> p in t
  {
    forall p ensures p in s <==> p in t {
      assert p in s <==> p in multiset(s);
      assert p in t <==> p in multiset(t);
    }
  }

  lemma SortedNotAfter(es: seq<Entry>, cps: seq<ChangePoint>)
    requires Sorting.SortedBy(cps, (p, q) => NotAfter(es, p, q))
    ensures forall k, l {:trigger NotAfter(es, cps[k], cps[l])} :: 0 <= k < l < |cps| ==> NotAfter(es, cps[k], cps[l])
  {
  }

  /** Entry `i` is open once `k` points are taken: it started and has not ended. */
  ghost predicate Open(es: seq<Entry>, cps: seq<ChangePoint>, k: int, i: int)
    requires 0 <= k <= |cps|
  {
    0 <= i < |es| && Start(es, i) in cps[..k] && Finish(es, i) !in cps[..k]
  }

  ghost function OpenSet(es: seq<Entry>, cps: seq<ChangePoint>, k: int): set<int>
    requires 0 <= k <= |cps|
  {
    set i | 0 <= i < |es| && Open(es, cps, k, i)
  }

  /** `a` lies between the points taken and those still to come. */
  ghost predicate Between(cps: seq<ChangePoint>, k: int, a: int)
    requires 0 <= k <= |cps|
  {
    (k > 0 ==> cps[k - 1].addr <= a) && (k < |cps| ==> a < cps[k].addr)
  }

  lemma InOrder(es: seq<Entry>, cps: seq<ChangePoint>, k: int, l: int)
    requires SweepOrder(es, cps) && 0 <= k <= l < |cps|
    ensures cps[k].addr <= cps[l].addr
  {
    assert k < l ==> NotAfter(es, cps[k], cps[l]);
  }

  lemma TakenExactly(es: seq<Entry>, cps: seq<ChangePoint>, k: int, a: int, p: ChangePoint)
    requires SweepOrder(es, cps) && 0 <= k <= |cps| && Between(cps, k, a) && p in cps
    ensures p in cps[..k] <==> p.addr <= a
  {
    hide SweepOrder;
    if p in cps[..k] {
      var j :| 0 <= j < k && cps[..k][j] == p;
      InOrder(es, cps, j, k - 1);
    } else {
      var j :| 0 <= j < |cps| && cps[j] == p;
      InPrefix(cps, k, j);
      InOrder(es, cps, k, j);
    }
  }

  lemma InPrefix(cps: seq<ChangePoint>, k: int, j: int)
    requires 0 <= k <= |cps| && 0 <= j < |cps|
    ensures j < k ==> cps[j] in cps[..k]
  {
    assert j < k ==> cps[..k][j] == cps[j];
  }

  /** Between two points the open entries are the ones covering the address. */
  lemma OpenCovers(es: seq<Entry>, cps: seq<ChangePoint>, k: int, a: int)
    requires Ranges(es) && SweepOrder(es, cps) && 0 <= k <= |cps| && Between(cps, k, a)
    ensures OpenSet(es, cps, k) == Covering(es, a)
  {
    hide InAddressSpace;
    forall i | 0 <= i < |es| ensures Open(es, cps, k, i) <==> Covers(es[i], a) {
      if es[i].length > 0 {
        TakenExactly(es, cps, k, a, Start(es, i));
        TakenExactly(es, cps, k, a, Finish(es, i));
      }
    }
  }

  lemma StartsBefore(es: seq<Entry>, cps: seq<ChangePoint>, k: int)
    requires SweepOrder(es, cps) && 0 <= k < |cps| && !IsStart(es, cps[k])
    ensures Start(es, cps[k].entry) in cps[..k]
  {
    var e := cps[k].entry;
    var j :| 0 <= j < |cps| && cps[j] == Start(es, e);
    assert j > k ==> NotAfter(es, cps[k], Start(es, e));
    assert j < k;
    assert cps[..k][j] == cps[j];
  }

  /** How the open entries change at point `k`. */
  lemma OpenStep(es: seq<Entry>, cps: seq<ChangePoint>, k: int)
    requires Ranges(es) && SweepOrder(es, cps) && 0 <= k < |cps|
    ensures var e := cps[k].entry;
            if IsStart(es, cps[k])
            then OpenSet(es, cps, k + 1) == OpenSet(es, cps, k) + {e}
            else e in OpenSet(es, cps, k) && OpenSet(es, cps, k + 1) == OpenSet(es, cps, k) - {e}
    ensures IsStart(es, cps[k]) ==> cps[k].entry !in OpenSet(es, cps, k)
  {
    hide InAddressSpace;
    var e := cps[k].entry;
    assert cps[..k + 1] == cps[..k] + [cps[k]];
    assert cps[k] !in cps[..k];
    if IsStart(es, cps[k]) {
      assert forall j :: 0 <= j < k ==> NotAfter(es, cps[j], cps[k]);
      assert Finish(es, e) !in cps[..k + 1];
    } else {
      StartsBefore(es, cps, k);
    }
    forall i | 0 <= i < |es| && i != e ensures Open(es, cps, k + 1, i) <==> Open(es, cps, k, i) {
    }
  }

  // ----- what the sweep keeps -----

  /** Once `k` points are taken: `ps` are the pieces emitted, `cur` the piece being built when the
      current type `prev` is not zero. */
  ghost predicate Swept(es: seq<Entry>, cps: seq<ChangePoint>, k: int, ps: seq<Entry>, cur: Entry, prev: int)
    requires 0 <= k <= |cps|
  {
    && IsTop(es, OpenSet(es, cps, k), prev)
    && (prev != 0 ==> cur.kind == prev && k > 0 && cur.base <= cps[k - 1].addr)
    && (|ps| > 0 ==> k > 0 && End(ps[|ps| - 1]) <= cps[k - 1].addr && (prev != 0 ==> End(ps[|ps| - 1]) <= cur.base))
    && |ps| <= (if k == 0 then 0 else k - 1)
    && Canonical(ps)
    && RightSoFar(es, cps, k, ps, cur, prev)
    && Touching(es, cps, k, ps, cur, prev)
  }

  /** Up to the next point, the pieces and the one being built say what the entries say. */
  ghost predicate RightSoFar(es: seq<Entry>, cps: seq<ChangePoint>, k: int, ps: seq<Entry>, cur: Entry, prev: int)
    requires 0 <= k <= |cps|
  {
    forall a {:trigger TypeAt(es, a)} :: k == |cps| || a < cps[k].addr ==>
      TypeAt(es, a) == Built(ps, cur, prev, a)
  }

  ghost function Built(ps: seq<Entry>, cur: Entry, prev: int, a: int): int {
    if prev != 0 && a >= cur.base && prev > TypeAt(ps, a) then prev else TypeAt(ps, a)
  }

  /** The piece being built differs from the last piece if it touches it. While points remain at the
      address where the last piece ended, either an entry of greater type started there, or all its
      points still to come are ends and the type has fallen. */
  ghost predicate Touching(es: seq<Entry>, cps: seq<ChangePoint>, k: int, ps: seq<Entry>, cur: Entry, prev: int)
    requires 0 <= k <= |cps|
  {
    |ps| > 0 && k > 0 ==>
      var last := ps[|ps| - 1];
      && (prev != 0 && End(last) == cur.base ==> last.kind != prev)
      && (End(last) == cps[k - 1].addr ==>
            && (prev != 0 ==> cur.base == cps[k - 1].addr)
            && ((exists i :: i in OpenSet(es, cps, k) && es[i].base == cps[k - 1].addr && es[i].kind > last.kind)
                || (prev < last.kind && !IsStart(es, cps[k - 1]))))
  }

  /** The pieces after point `k`: the one being built is emitted when the type changes and it is not empty. */
  function NextPieces(ps: seq<Entry>, cur: Entry, prev: int, curr: int, addr: int): seq<Entry> {
    if curr != prev && prev != 0 && addr - cur.base != 0 then ps + [Entry(cur.base, addr - cur.base, cur.kind)] else ps
  }

  /** The piece being built after point `k`. */
  predicate NextCurrent(cur: Entry, prev: int, curr: int, addr: int, cur': Entry) {
    && (curr == prev ==> cur' == cur)
    && (curr != prev && curr != 0 ==> cur'.base == addr && cur'.kind == curr)
  }

  lemma PointOrder(es: seq<Entry>, cps: seq<ChangePoint>, k: int)
    requires SweepOrder(es, cps) && 0 <= k < |cps|
    ensures k > 0 ==> cps[k - 1].addr <= cps[k].addr
    ensures k > 0 && cps[k - 1].addr == cps[k].addr && !IsStart(es, cps[k - 1]) ==> !IsStart(es, cps[k])
    ensures 0 <= cps[k].entry < |es|
    ensures !IsStart(es, cps[k]) ==> es[cps[k].entry].base < cps[k].addr
  {
    assert k > 0 ==> NotAfter(es, cps[k - 1], cps[k]);
  }

  lemma StepCanonical(es: seq<Entry>, cps: seq<ChangePoint>, k: int, ps: seq<Entry>, cur: Entry, prev: int, curr: int)
    requires SweepOrder(es, cps) && 0 <= k < |cps| && Swept(es, cps, k, ps, cur, prev)
    ensures Canonical(NextPieces(ps, cur, prev, curr, cps[k].addr))
  {
    hide SweepOrder, RightSoFar, OpenSet;
    PointOrder(es, cps, k);
    var ps' := NextPieces(ps, cur, prev, curr, cps[k].addr);
    forall j | 0 <= j && j + 1 < |ps'| ensures Before(ps', j) {
      if j + 1 < |ps| { assert Before(ps, j); }
    }
  }

  /** Nothing changes for addresses the pieces had already settled. */
  lemma SettledStays(ps: seq<Entry>, cur: Entry, prev: int, curr: int, addr: int, cur': Entry, a: int)
    requires prev != 0 ==> cur.kind == prev
    requires prev == 0 || cur.base <= addr
    requires prev >= 0 && curr >= 0 && NextCurrent(cur, prev, curr, addr, cur') && a < addr
    ensures Built(NextPieces(ps, cur, prev, curr, addr), cur', curr, a) == Built(ps, cur, prev, a)
  {
    var ps' := NextPieces(ps, cur, prev, curr, addr);
    if ps' != ps {
      assert ps'[..|ps'| - 1] == ps;
    }
  }

  lemma StepRight(es: seq<Entry>, cps: seq<ChangePoint>, k: int, ps: seq<Entry>, cur: Entry, prev: int, curr: int,
                  cur': Entry)
    requires Ranges(es) && SweepOrder(es, cps) && 0 <= k < |cps| && Swept(es, cps, k, ps, cur, prev)
    requires IsTop(es, OpenSet(es, cps, k + 1), curr)
    requires NextCurrent(cur, prev, curr, cps[k].addr, cur')
    ensures RightSoFar(es, cps, k + 1, NextPieces(ps, cur, prev, curr, cps[k].addr), cur', curr)
  {
    hide InAddressSpace, SweepOrder, Touching, OpenSet, Canonical, TypeAt, Covering;
    var addr := cps[k].addr;
    var ps' := NextPieces(ps, cur, prev, curr, addr);
    PointOrder(es, cps, k);
    StepCanonical(es, cps, k, ps, cur, prev, curr);
    forall a | k + 1 == |cps| || a < cps[k + 1].addr ensures TypeAt(es, a) == Built(ps', cur', curr, a) {
      if a < addr {
        SettledStays(ps, cur, prev, curr, addr, cur', a);
      } else {
        OpenCovers(es, cps, k + 1, a);
        TypeAtIsTop(es, a);
        TopIsUnique(es, Covering(es, a), curr, TypeAt(es, a));
        UntypedAbove(ps', a);
      }
    }
  }

  lemma StepTouching(es: seq<Entry>, cps: seq<ChangePoint>, k: int, ps: seq<Entry>, cur: Entry, prev: int, curr: int,
                     cur': Entry)
    requires Ranges(es) && SweepOrder(es, cps) && 0 <= k < |cps| && Swept(es, cps, k, ps, cur, prev)
    requires IsTop(es, OpenSet(es, cps, k + 1), curr)
    requires NextCurrent(cur, prev, curr, cps[k].addr, cur')
    ensures Touching(es, cps, k + 1, NextPieces(ps, cur, prev, curr, cps[k].addr), cur', curr)
  {
    hide InAddressSpace, SweepOrder, RightSoFar, Canonical, OpenSet;
    var addr, e := cps[k].addr, cps[k].entry;
    var open, open' := OpenSet(es, cps, k), OpenSet(es, cps, k + 1);
    var ps' := NextPieces(ps, cur, prev, curr, addr);
    PointOrder(es, cps, k);
    OpenStep(es, cps, k);
    TopMoves(es, cps, k, prev, curr);
    if |ps'| > |ps| {
      if IsStart(es, cps[k]) {
        assert e in open' && es[e].base == addr && es[e].kind > prev;
      }
    } else if |ps| > 0 {
      var last := ps[|ps| - 1];
      if End(last) == addr {
        if i :| i in open && es[i].base == cps[k - 1].addr && es[i].kind > last.kind {
          assert i in open';
        }
      }
    }
  }

  /** A start can only raise the type, to its own; an end can only lower it. */
  lemma TopMoves(es: seq<Entry>, cps: seq<ChangePoint>, k: int, prev: int, curr: int)
    requires Ranges(es) && SweepOrder(es, cps) && 0 <= k < |cps|
    requires IsTop(es, OpenSet(es, cps, k), prev) && IsTop(es, OpenSet(es, cps, k + 1), curr)
    ensures IsStart(es, cps[k]) ==> curr >= prev && (curr > prev ==> es[cps[k].entry].kind == curr)
    ensures !IsStart(es, cps[k]) ==> curr <= prev
  {
    OpenStep(es, cps, k);
  }

  lemma StepKeeps(es: seq<Entry>, cps: seq<ChangePoint>, k: int, ps: seq<Entry>, cur: Entry, prev: int, curr: int,
                  cur': Entry)
    requires Ranges(es) && SweepOrder(es, cps) && 0 <= k < |cps| && Swept(es, cps, k, ps, cur, prev)
    requires IsTop(es, OpenSet(es, cps, k + 1), curr)
    requires NextCurrent(cur, prev, curr, cps[k].addr, cur')
    ensures Swept(es, cps, k + 1, NextPieces(ps, cur, prev, curr, cps[k].addr), cur', curr)
  {
    hide SweepOrder, RightSoFar, Canonical, Touching, OpenSet;
    PointOrder(es, cps, k);
    StepCanonical(es, cps, k, ps, cur, prev, curr);
    StepRight(es, cps, k, ps, cur, prev, curr, cur');
    StepTouching(es, cps, k, ps, cur, prev, curr, cur');
  }

  /** Nothing is open before the first point or after the last. */
  lemma NothingOpen(es: seq<Entry>, cps: seq<ChangePoint>)
    requires Ranges(es) && SweepOrder(es, cps)
    ensures OpenSet(es, cps, 0) == {} && OpenSet(es, cps, |cps|) == {}
  {
    assert cps[..|cps|] == cps;
  }

  lemma SweptStart(es: seq<Entry>, cps: seq<ChangePoint>, cur: Entry)
    requires Ranges(es) && SweepOrder(es, cps)
    ensures Swept(es, cps, 0, [], cur, 0)
  {
    NothingOpen(es, cps);
    forall a | 0 == |cps| || a < cps[0].addr ensures TypeAt(es, a) == 0 {
      OpenCovers(es, cps, 0, a);
      TypeAtIsTop(es, a);
    }
  }

  lemma SweptEnd(es: seq<Entry>, cps: seq<ChangePoint>, k: int, ps: seq<Entry>, cur: Entry, prev: int)
    requires Ranges(es) && SweepOrder(es, cps) && k == |cps| && Swept(es, cps, k, ps, cur, prev)
    ensures Canonical(ps) && Same(ps, es)
    ensures |ps| <= (if cps == [] then 0 else |cps| - 1)
  {
    NothingOpen(es, cps);
    assert prev == 0;
  }
}
