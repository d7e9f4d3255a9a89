/** Typed address ranges and what they say, address by address. */
module MemoryPieces {

  /** An entry of the firmware's memory map, or a piece of the sanitized one. */
  datatype Entry = Entry(base: int, length: int, kind: int)

  function End(e: Entry): int {
    e.base + e.length
  }

  predicate Covers(e: Entry, a: int) {
    e.base <= a < End(e)
  }

  /** The greatest type among the entries covering `a`, zero when none does. */
  ghost function TypeAt(es: seq<Entry>, a: int): (t: int)
    ensures t >= 0
  {
    if es == [] then 0 else
      var t := TypeAt(es[..|es| - 1], a);
      var e := es[|es| - 1];
      if Covers(e, a) && e.kind > t then e.kind else t
  }

  /** `t` is the greatest type in `s`, zero when `s` holds no entry of positive type. */
  ghost predicate IsTop(es: seq<Entry>, s: set<int>, t: int) {
    && t >= 0
    && (forall i :: i in s ==> 0 <= i < |es| && es[i].kind <= t)
    && (t != 0 ==> exists i :: i in s && es[i].kind == t)
  }

  ghost function Covering(es: seq<Entry>, a: int): set<int> {
    set i | 0 <= i < |es| && Covers(es[i], a)
  }

  lemma {:induction false} TypeAtIsTop(es: seq<Entry>, a: int)
    ensures IsTop(es, Covering(es, a), TypeAt(es, a))
  {
    if es != [] {
      var n := |es| - 1;
      TypeAtIsTop(es[..n], a);
      var t := TypeAt(es[..n], a);
      forall i | i in Covering(es, a) ensures es[i].kind <= TypeAt(es, a) {
        if i < n { assert i in Covering(es[..n], a); }
      }
      if TypeAt(es, a) != 0 {
        if TypeAt(es, a) == t {
          var i :| i in Covering(es[..n], a) && es[..n][i].kind == t;
          assert i in Covering(es, a) && es[i].kind == t;
        } else {
          assert n in Covering(es, a) && es[n].kind == TypeAt(es, a);
        }
      }
    }
  }

  lemma TopIsUnique(es: seq<Entry>, s: set<int>, t: int, t': int)
    requires IsTop(es, s, t) && IsTop(es, s, t')
    ensures t == t'
  {
  }

  /** Non-empty typed pieces in address order, disjoint, touching neighbours of different type. */
  ghost predicate Canonical(ps: seq<Entry>) {
    && (forall j :: 0 <= j < |ps| ==> ps[j].length > 0 && ps[j].kind > 0)
    && (forall j {:trigger Before(ps, j)} :: 0 <= j && j + 1 < |ps| ==> Before(ps, j))
  }

  /** Piece `j` ends before the next starts, or there with another type. */
  predicate Before(ps: seq<Entry>, j: int)
    requires 0 <= j && j + 1 < |ps|
  {
    End(ps[j]) <= ps[j + 1].base && (End(ps[j]) == ps[j + 1].base ==> ps[j].kind != ps[j + 1].kind)
  }

  lemma {:induction false} PiecesOrdered(ps: seq<Entry>, i: int, j: int)
    requires Canonical(ps) && 0 <= i < j < |ps|
    ensures End(ps[i]) <= ps[j].base
    decreases j
  {
    assert Before(ps, j - 1);
    if i < j - 1 { PiecesOrdered(ps, i, j - 1); }
  }

  /** In a canonical list the type at an address is that of the one piece covering it. */
  lemma PieceType(ps: seq<Entry>, a: int, m: int)
    requires Canonical(ps) && 0 <= m < |ps| && Covers(ps[m], a)
    ensures TypeAt(ps, a) == ps[m].kind
    ensures forall j :: 0 <= j < |ps| && Covers(ps[j], a) ==> j == m
  {
    TypeAtIsTop(ps, a);
    forall j | 0 <= j < |ps| && Covers(ps[j], a) ensures j == m {
      if j < m { PiecesOrdered(ps, j, m); } else if m < j { PiecesOrdered(ps, m, j); }
    }
    assert m in Covering(ps, a);
  }

  lemma TypedIsCovered(ps: seq<Entry>, a: int) returns (m: int)
    requires TypeAt(ps, a) > 0
    ensures 0 <= m < |ps| && Covers(ps[m], a)
  {
    TypeAtIsTop(ps, a);
    m :| m in Covering(ps, a) && ps[m].kind == TypeAt(ps, a);
  }

  /** Read piecewise: `a` lies in an output piece of type `t` exactly when `t` is the type there. */
  lemma CoveredExactly(ps: seq<Entry>, a: int, t: int)
    requires Canonical(ps) && t > 0
    ensures (exists m :: 0 <= m < |ps| && Covers(ps[m], a) && ps[m].kind == t) <==> TypeAt(ps, a) == t
  {
    if m :| 0 <= m < |ps| && Covers(ps[m], a) && ps[m].kind == t {
      PieceType(ps, a, m);
    }
    if TypeAt(ps, a) == t {
      var m := TypedIsCovered(ps, a);
      PieceType(ps, a, m);
    }
  }

  ghost predicate SameBelow(ps: seq<Entry>, qs: seq<Entry>, limit: int) {
    forall a :: a < limit ==> TypeAt(ps, a) == TypeAt(qs, a)
  }

  ghost predicate Same(ps: seq<Entry>, qs: seq<Entry>) {
    forall a :: TypeAt(ps, a) == TypeAt(qs, a)
  }

  lemma NextPieceStarts(ps: seq<Entry>, qs: seq<Entry>, limit: int, j: int)
    requires Canonical(ps) && Canonical(qs) && SameBelow(ps, qs, limit)
    requires 0 <= j < |ps| && End(ps[j]) <= limit
    requires j <= |qs| && ps[..j] == qs[..j]
    ensures j < |qs| && ps[j].base == qs[j].base && ps[j].kind == qs[j].kind
  {
    var a := ps[j].base;
    PieceType(ps, a, j);
    var m := TypedIsCovered(qs, a);
    assert forall k :: 0 <= k < j ==> ps[k] == ps[..j][k] == qs[..j][k] == qs[k];
    if qs[j].base != a {
      if j < m { PiecesOrdered(qs, j, m); }
      PieceType(qs, qs[j].base, j);
      var o := TypedIsCovered(ps, qs[j].base);
      if j < o { PiecesOrdered(ps, j, o); }
    }
    PieceType(qs, a, j);
  }

  lemma PieceEnds(ps: seq<Entry>, qs: seq<Entry>, limit: int, j: int)
    requires Canonical(ps) && Canonical(qs) && SameBelow(ps, qs, limit)
    requires 0 <= j < |ps| && j < |qs| && ps[j].base == qs[j].base && ps[j].kind == qs[j].kind
    requires End(ps[j]) < limit
    ensures End(qs[j]) <= End(ps[j])
  {
    if End(qs[j]) > End(ps[j]) {
      assert j + 1 < |ps| ==> Before(ps, j);
      var e := End(ps[j]);
      PieceType(qs, e, j);
      var m := TypedIsCovered(ps, e);
      PieceType(ps, e, m);
      if m < j { PiecesOrdered(ps, m, j); }
      assert m > j;
      PiecesOrdered(ps, j, m);
      if j + 1 < m { PiecesOrdered(ps, j + 1, m); }
      assert false;
    }
  }

  /** A canonical list that is right below `limit` is, piece by piece, the start of every canonical
      list that agrees with it there. */
  lemma {:induction false} PrefixForced(ps: seq<Entry>, qs: seq<Entry>, limit: int, n: int)
    requires Canonical(ps) && Canonical(qs) && SameBelow(ps, qs, limit)
    requires 0 <= n <= |ps| && (|ps| > 0 ==> End(ps[|ps| - 1]) <= limit)
    requires n == |ps| ==> (forall q: int :: q >= limit ==> TypeAt(qs, q) == 0) || n == 0
    ensures n <= |qs| && ps[..n] == qs[..n]
    decreases n
  {
    if n > 0 {
      PrefixForced(ps, qs, limit, n - 1);
      var j := n - 1;
      if n < |ps| { PiecesOrdered(ps, j, |ps| - 1); }
      NextPieceStarts(ps, qs, limit, j);
      if End(qs[j]) < End(ps[j]) {
        PieceEnds(qs, ps, limit, j);
      } else if End(ps[j]) < limit {
        PieceEnds(ps, qs, limit, j);
      } else if End(qs[j]) > limit {
        PieceType(qs, limit, j);
      }
      assert ps[j] == qs[j];
      assert ps[..n] == ps[..j] + [ps[j]] && qs[..n] == qs[..j] + [qs[j]];
    }
  }

  /** No canonical list with the same types below `limit` has fewer pieces. */
  lemma ShortestBelow(ps: seq<Entry>, qs: seq<Entry>, limit: int)
    requires Canonical(ps) && Canonical(qs) && SameBelow(ps, qs, limit)
    requires |ps| > 0 ==> End(ps[|ps| - 1]) <= limit
    ensures |ps| <= |qs|
  {
    if |ps| > 0 {
      PrefixForced(ps, qs, limit, |ps| - 1);
      NextPieceStarts(ps, qs, limit, |ps| - 1);
    }
  }

  lemma {:induction false} UntypedAbove(ps: seq<Entry>, a: int)
    requires Canonical(ps) && (|ps| > 0 ==> End(ps[|ps| - 1]) <= a)
    ensures TypeAt(ps, a) == 0
  {
    if TypeAt(ps, a) > 0 {
      var m := TypedIsCovered(ps, a);
      if m < |ps| - 1 { PiecesOrdered(ps, m, |ps| - 1); }
    }
  }

  /** Canonical lists are determined by the types they give to addresses. */
  lemma CanonicalUnique(ps: seq<Entry>, qs: seq<Entry>)
    requires Canonical(ps) && Canonical(qs) && Same(ps, qs)
    ensures ps == qs
  {
    var p := if |ps| > 0 then End(ps[|ps| - 1]) else 0;
    var limit := if |qs| > 0 && End(qs[|qs| - 1]) > p then End(qs[|qs| - 1]) else p;
    forall a | a >= limit ensures TypeAt(qs, a) == 0 { UntypedAbove(qs, a); }
    forall a | a >= limit ensures TypeAt(ps, a) == 0 { UntypedAbove(ps, a); }
    PrefixForced(ps, qs, limit, |ps|);
    PrefixForced(qs, ps, limit, |qs|);
  }
}
