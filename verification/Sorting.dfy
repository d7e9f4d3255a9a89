/** Util::sort of stdlib/utility.hpp: insertion sort under a caller's comparator. */
module Sorting {

  /** The comparator need not be a strict order: it only has to agree with some total preorder,
      either way round between elements the preorder treats as equal. */
  ghost predicate Agrees<T(!new)>(cmp: (T, T) -> bool, le: (T, T) -> bool) {
    && (forall x, y :: cmp(x, y) ==> le(x, y))
    && (forall x, y :: !cmp(x, y) ==> le(y, x))
    && (forall x, y, z :: le(x, y) && le(y, z) ==> le(x, z))
  }

  ghost predicate SortedBy<T>(s: seq<T>, le: (T, T) -> bool) {
    forall i, j :: 0 <= i < j < |s| ==> le(s[i], s[j])
  }

  lemma SwapKeepsElements<T>(s: seq<T>, i: int, j: int)
    requires 0 <= i < j < |s|
    ensures multiset(s[i := s[j]][j := s[i]]) == multiset(s)
  {
  }

  /** `s` with a hole at `j` that `elem` is to fill: sorted but for the hole. */
  ghost predicate SortedAround<T>(s: seq<T>, j: int, elem: T, le: (T, T) -> bool)
    requires 0 <= j < |s|
  {
    && (forall k, l :: 0 <= k < l < |s| && k != j && l != j ==> le(s[k], s[l]))
    && (forall k :: j < k < |s| ==> le(elem, s[k]))
  }

  lemma Shift<T(!new)>(s: seq<T>, j: int, elem: T, cmp: (T, T) -> bool, le: (T, T) -> bool)
    requires 0 < j < |s| && SortedAround(s, j, elem, le) && Agrees(cmp, le) && cmp(elem, s[j - 1])
    ensures SortedAround(s[j := s[j - 1]], j - 1, elem, le)
    ensures multiset(s[j := s[j - 1]][j - 1 := elem]) == multiset(s[j := elem])
  {
    var t := s[j := elem];
    SwapKeepsElements(t, j - 1, j);
    assert s[j := s[j - 1]][j - 1 := elem] == t[j - 1 := t[j]][j := t[j - 1]];
  }

  lemma Settle<T(!new)>(s: seq<T>, j: int, elem: T, cmp: (T, T) -> bool, le: (T, T) -> bool)
    requires 0 <= j < |s| && SortedAround(s, j, elem, le) && Agrees(cmp, le)
    requires j > 0 ==> !cmp(elem, s[j - 1])
    ensures SortedBy(s[j := elem], le)
  {
    forall k | 0 <= k < j ensures le(s[k], elem) {
      assert le(s[j - 1], elem);
      assert k < j - 1 ==> le(s[k], s[j - 1]);
    }
  }

  method Sort<T(!new)>(arr: array<T>, n: int, cmp: (T, T) -> bool, ghost le: (T, T) -> bool)
    requires 0 <= n <= arr.Length
    requires Agrees(cmp, le)
    modifies arr
    ensures SortedBy(arr[..n], le)
    ensures multiset(arr[..n]) == multiset(old(arr[..n]))
    ensures arr[n..] == old(arr[n..])
  {
    var i := 1;
    while i < n
      invariant n >= 1 ==> 1 <= i <= n
      invariant n >= 1 ==> SortedBy(arr[..i], le)
      invariant multiset(arr[..n]) == multiset(old(arr[..n]))
      invariant arr[n..] == old(arr[n..])
    {
      InsertStep(arr, n, i, cmp, le);
      i := i + 1;
    }
  }

  /** One pass of the outer loop: inserts `arr[i]` into the sorted prefix before it. */
  method InsertStep<T(!new)>(arr: array<T>, n: int, i: int, cmp: (T, T) -> bool, ghost le: (T, T) -> bool)
    requires 0 < i < n <= arr.Length
    requires Agrees(cmp, le)
    requires SortedBy(arr[..i], le)
    modifies arr
    ensures SortedBy(arr[..i + 1], le)
    ensures multiset(arr[..i + 1]) == multiset(old(arr[..i + 1]))
    ensures arr[i + 1..] == old(arr[i + 1..])
    ensures multiset(arr[..n]) == multiset(old(arr[..n])) && arr[n..] == old(arr[n..])
  {
    var j := i;
    var elem := arr[j];
    ghost var was := arr[..i + 1];
    assert was == was[j := elem];
    while j > 0 && cmp(elem, arr[j - 1])
      invariant 0 <= j <= i
      invariant SortedAround(arr[..i + 1], j, elem, le)
      invariant multiset(arr[..i + 1][j := elem]) == multiset(was)
      invariant arr[i + 1..] == old(arr[i + 1..])
    {
      ghost var s := arr[..i + 1];
      Shift(s, j, elem, cmp, le);
      arr[j] := arr[j - 1];
      assert arr[..i + 1] == s[j := s[j - 1]];
      j := j - 1;
    }
    ghost var s := arr[..i + 1];
    Settle(s, j, elem, cmp, le);
    arr[j] := elem;
    assert arr[..i + 1] == s[j := elem];
    assert arr[..n] == arr[..i + 1] + arr[i + 1..][..n - i - 1];
    assert old(arr[..n]) == was + old(arr[i + 1..])[..n - i - 1];
    assert arr[n..] == arr[i + 1..][n - i - 1..];
    assert old(arr[n..]) == old(arr[i + 1..])[n - i - 1..];
  }
}
