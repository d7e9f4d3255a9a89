/** The heap's arena as a value: memory cut into 16-byte units, a circular free list
    linked through that memory, and the blocks that tile the pages obtained so far.
    Addresses count units, so every header is 16-byte aligned by construction.
    Nothing here assumes that the free list is in address order. */
module HeapArena {
  import opened Intervals

  const HEADER := 16
  const PAGE := 4096
  const PAGE_UNITS := 256

  datatype Header = Header(next: int, size: int)
  type Memory = seq<Header>

  function Next(ring: seq<int>, i: int): int
    requires 0 <= i < |ring|
  {
    if i + 1 < |ring| then ring[i + 1] else ring[0]
  }

  ghost predicate Distinct(ring: seq<int>) {
    forall i, j :: 0 <= i < j < |ring| ==> ring[i] != ring[j]
  }

  /** `ring` lists the free headers in link order and the links close up. */
  ghost predicate Linked(m: Memory, ring: seq<int>) {
    && |ring| > 0
    && Distinct(ring)
    && (forall i :: 0 <= i < |ring| ==> 0 <= ring[i] < |m|)
    && (forall i {:trigger Next(ring, i)} :: 0 <= i < |ring| ==> m[ring[i]].next == Next(ring, i))
  }

  /** Unit `u` lies in the block whose header is `h`. */
  predicate Within(m: Memory, h: int, u: int) {
    0 <= h < |m| && h <= u < h + m[h].size / HEADER
  }

  /** The blocks cut the owned units into disjoint spans: `owner` names the one block
      that holds each unit, so spans neither overlap nor leave a gap. */
  ghost predicate Tiled(m: Memory, blocks: set<int>, owner: map<int, int>) {
    && (forall h :: h in blocks ==> 0 <= h < |m| && m[h].size > 0 && m[h].size % HEADER == 0)
    && (forall u :: u in owner ==> owner[u] in blocks)
    && (forall u, h {:trigger Within(m, h, u)} ::
          h in blocks ==> ((u in owner && owner[u] == h) <==> Within(m, h, u)))
  }

  /** The units are exactly those of the pages obtained. */
  ghost predicate CoversPages(units: set<int>, pages: set<int>) {
    forall u {:trigger u in units} :: u in units <==> u / PAGE_UNITS in pages
  }

  ghost predicate InRange(units: set<int>, lo: int, hi: int) {
    forall u :: u in units ==> lo < u < hi
  }

  /** What the source's memory means: the free headers in link order, the live headers, all
      blocks, the block that owns each unit, and the page numbers obtained. */
  datatype Layout = Layout(ring: seq<int>, live: set<int>, blocks: set<int>, owner: map<int, int>, pages: set<int>)

  ghost predicate FreeList(m: Memory, base: int, ring: seq<int>) {
    && Linked(m, ring)
    && base in ring
    && m[base].size == 0
  }

  /** Every block but the sentinel is either listed free or live, never both. */
  ghost predicate Listed(base: int, l: Layout) {
    && base !in l.blocks
    && l.live <= l.blocks
    && (forall h :: h in l.ring ==> h == base || (h in l.blocks && h !in l.live))
    && (forall h :: h in l.blocks && h !in l.live ==> h in l.ring)
  }

  ghost predicate Arena(m: Memory, base: int, l: Layout) {
    && Tiled(m, l.blocks, l.owner)
    && CoversPages(l.owner.Keys, l.pages)
    && InRange(l.owner.Keys, base, |m|)
  }

  ghost predicate Valid(m: Memory, base: int, l: Layout) {
    && FreeList(m, base, l.ring)
    && Listed(base, l)
    && Arena(m, base, l)
  }

  // ----- conservation: block sizes add up to the pages -----

  ghost function SumSize(m: Memory, blocks: set<int>): int
    requires forall h :: h in blocks ==> 0 <= h < |m|
  {
    if blocks == {} then 0 else
      m[Pick(blocks)].size + SumSize(m, blocks - {Pick(blocks)})
  }

  ghost function Span(m: Memory, h: int): set<int>
    requires 0 <= h < |m| && m[h].size > 0
  {
    Interval(h, h + m[h].size / HEADER)
  }

  lemma TiledRemove(m: Memory, blocks: set<int>, owner: map<int, int>, h: int)
    requires Tiled(m, blocks, owner)
    requires h in blocks
    ensures Tiled(m, blocks - {h}, owner - Span(m, h))
    ensures Span(m, h) <= owner.Keys
  {
    var span, rest := Span(m, h), owner - Span(m, h);
    forall u | u in span ensures u in owner && owner[u] == h { assert Within(m, h, u); }
    forall u, k | k in blocks - {h}
      ensures (u in rest && rest[u] == k) <==> Within(m, k, u)
    {
      assert Within(m, k, u) <==> u in owner && owner[u] == k;
    }
    forall u | u in rest ensures rest[u] in blocks - {h} {
      assert Within(m, h, u) <==> u in span;
    }
  }

  lemma TiledNothing(m: Memory, owner: map<int, int>)
    requires Tiled(m, {}, owner)
    ensures owner == map[]
  {
    assert forall u :: u !in owner;
    assert owner.Keys == {};
  }

  lemma {:induction false} TiledSum(m: Memory, blocks: set<int>, owner: map<int, int>)
    requires Tiled(m, blocks, owner)
    requires forall h :: h in blocks ==> 0 <= h < |m| && m[h].size > 0 && m[h].size % HEADER == 0
    ensures SumSize(m, blocks) == HEADER * |owner|
    decreases blocks
  {
    if blocks == {} {
      TiledNothing(m, owner);
    } else {
      var h := Pick(blocks);
      TiledRemove(m, blocks, owner, h);
      var rest := owner - Span(m, h);
      TiledSum(m, blocks - {h}, rest);
      assert rest.Keys == owner.Keys - Span(m, h);
      assert |rest| == |rest.Keys| && |owner| == |owner.Keys|;
    }
  }

  lemma {:induction false} CoveredUnits(units: set<int>, pages: set<int>)
    requires CoversPages(units, pages)
    ensures |units| == PAGE_UNITS * |pages|
    decreases pages
  {
    if pages == {} {
      assert forall u :: u !in units;
      assert units == {};
    } else {
      var p := Pick(pages);
      var span := Interval(PAGE_UNITS * p, PAGE_UNITS * p + PAGE_UNITS);
      assert forall u :: u in span <==> u / PAGE_UNITS == p;
      assert span <= units;
      CoveredUnits(units - span, pages - {p});
      assert |units - span| == |units| - |span|;
    }
  }

  lemma {:induction false} SumSizeRemove(m: Memory, blocks: set<int>, h: int)
    requires forall k :: k in blocks ==> 0 <= k < |m|
    requires h in blocks
    ensures SumSize(m, blocks) == m[h].size + SumSize(m, blocks - {h})
    decreases blocks
  {
    var k := Pick(blocks);
    if k != h {
      SumSizeRemove(m, blocks - {k}, h);
      SumSizeRemove(m, blocks - {h}, k);
      assert blocks - {k} - {h} == blocks - {h} - {k};
    }
  }

  lemma {:induction false} SumSizeUnion(m: Memory, a: set<int>, b: set<int>)
    requires a !! b
    requires forall k :: k in a || k in b ==> 0 <= k < |m|
    ensures SumSize(m, a + b) == SumSize(m, a) + SumSize(m, b)
    decreases a
  {
    if a == {} {
      assert a + b == b;
    } else {
      var h := Pick(a);
      SumSizeRemove(m, a, h);
      SumSizeRemove(m, a + b, h);
      assert a + b - {h} == (a - {h}) + b;
      SumSizeUnion(m, a - {h}, b);
    }
  }

  /** Free bytes and live bytes, headers included, add up to the pages obtained. */
  lemma Conservation(m: Memory, base: int, l: Layout)
    requires Valid(m, base, l)
    ensures SumSize(m, l.blocks - l.live) + SumSize(m, l.live) == PAGE * |l.pages|
    ensures forall h :: h in l.blocks - l.live <==> h in l.ring && h != base
  {
    assert (l.blocks - l.live) + l.live == l.blocks;
    SumSizeUnion(m, l.blocks - l.live, l.live);
    TiledSum(m, l.blocks, l.owner);
    CoveredUnits(l.owner.Keys, l.pages);
    assert |l.owner| == |l.owner.Keys|;
  }

  /** Two different blocks, free or live, never overlap. */
  lemma BlocksDisjoint(m: Memory, blocks: set<int>, owner: map<int, int>, h: int, k: int)
    requires Tiled(m, blocks, owner)
    requires h in blocks && k in blocks && h != k
    ensures h + m[h].size / HEADER <= k || k + m[k].size / HEADER <= h
  {
    assert m[h].size / HEADER > 0 && m[k].size / HEADER > 0;
    var u := if h < k then k else h;
    assert Within(m, h, u) ==> owner[u] == h;
    assert Within(m, k, u) ==> owner[u] == k;
  }

  /** A block owns its own header unit. */
  lemma BlockOwnsHeader(m: Memory, blocks: set<int>, owner: map<int, int>, h: int)
    requires Tiled(m, blocks, owner)
    requires h in blocks
    ensures h in owner && owner[h] == h
    ensures m[h].size >= HEADER
  {
    assert Within(m, h, h);
  }

  // ----- the search for the edge a returned block belongs on -----

  /** The edge at which the search of `free` stops. */
  predicate Accepts(node: int, next: int, header: int) {
    || node < header < next
    || (node >= next && (header > node || header < next))
  }

  lemma {:induction false} BelowStays(ring: seq<int>, header: int, i: int, j: int)
    requires 0 <= i <= j < |ring|
    requires forall k :: 0 <= k < |ring| ==> !Accepts(ring[k], Next(ring, k), header) && ring[k] != header
    requires ring[i] < header
    ensures ring[j] < header
    decreases j - i
  {
    if i < j {
      assert !Accepts(ring[i], Next(ring, i), header);
      BelowStays(ring, header, i + 1, j);
    }
  }

  lemma {:induction false} AscendingFromStart(ring: seq<int>, j: int)
    requires 0 <= j < |ring|
    requires forall k :: 0 <= k < j ==> ring[k] < Next(ring, k)
    ensures ring[0] <= ring[j]
    decreases j
  {
    if j > 0 {
      AscendingFromStart(ring, j - 1);
      assert ring[j - 1] < Next(ring, j - 1);
    }
  }

  /** Whatever the cyclic order of the free headers, some edge accepts a new header. */
  lemma EdgeExists(ring: seq<int>, header: int) returns (e: int)
    requires 0 < |ring| && header !in ring
    ensures 0 <= e < |ring| && Accepts(ring[e], Next(ring, e), header)
  {
    if e' :| 0 <= e' < |ring| && Accepts(ring[e'], Next(ring, e'), header) {
      e := e';
    } else {
      var last := |ring| - 1;
      if i :| 0 <= i < |ring| && ring[i] < header {
        BelowStays(ring, header, i, last);
        assert !Accepts(ring[last], Next(ring, last), header);
        forall j | 0 <= j < |ring| ensures ring[j] < header { BelowStays(ring, header, 0, j); }
      }
      forall k | 0 <= k < |ring| ensures ring[k] < Next(ring, k) {
        assert !Accepts(ring[k], Next(ring, k), header);
      }
      AscendingFromStart(ring, last);
      assert false;
    }
  }

  // ----- the ring operations -----

  function Rotate(ring: seq<int>, k: int): seq<int>
    requires 0 <= k <= |ring|
  {
    ring[k..] + ring[..k]
  }

  lemma RotateElements(ring: seq<int>, k: int)
    requires 0 <= k <= |ring|
    ensures forall h :: h in Rotate(ring, k) <==> h in ring
  {
    assert ring == ring[..k] + ring[k..];
  }

  lemma RotateAt(ring: seq<int>, k: int, i: int)
    requires 0 <= k < |ring| && 0 <= i < |ring|
    ensures Rotate(ring, k)[i] == ring[if i < |ring| - k then i + k else i + k - |ring|]
    ensures Next(Rotate(ring, k), i) == Next(ring, if i < |ring| - k then i + k else i + k - |ring|)
  {
  }

  lemma RotateLinked(m: Memory, ring: seq<int>, k: int)
    requires Linked(m, ring)
    requires 0 <= k < |ring|
    ensures Linked(m, Rotate(ring, k))
  {
    var r, n := Rotate(ring, k), |ring|;
    forall i | 0 <= i < n ensures 0 <= r[i] < |m| && m[r[i]].next == Next(r, i) {
      RotateAt(ring, k, i);
    }
    forall i, j | 0 <= i < j < n ensures r[i] != r[j] {
      RotateAt(ring, k, i);
      RotateAt(ring, k, j);
    }
  }

  lemma RotateValid(m: Memory, base: int, l: Layout, k: int)
    requires Valid(m, base, l)
    requires 0 <= k < |l.ring|
    ensures Valid(m, base, l.(ring := Rotate(l.ring, k)))
    ensures Rotate(l.ring, k)[0] == l.ring[k]
    ensures Next(Rotate(l.ring, k), 0) == Next(l.ring, k)
  {
    RotateElements(l.ring, k);
    RotateLinked(m, l.ring, k);
    RotateAt(l.ring, k, 0);
  }

  lemma TiledFrame(m: Memory, m': Memory, blocks: set<int>, owner: map<int, int>)
    requires Tiled(m, blocks, owner)
    requires |m'| == |m| && forall h :: h in blocks ==> m'[h].size == m[h].size
    ensures Tiled(m', blocks, owner)
  {
    forall u, h | h in blocks
      ensures (u in owner && owner[u] == h) <==> Within(m', h, u)
    {
      assert Within(m', h, u) <==> Within(m, h, u);
    }
  }

  // Linking a header behind the first free one.

  lemma LinkAt(ring: seq<int>, h: int, i: int)
    requires 0 < |ring| && 0 <= i <= |ring|
    ensures ([ring[0], h] + ring[1..])[i] == if i == 0 then ring[0] else if i == 1 then h else ring[i - 1]
    ensures Next([ring[0], h] + ring[1..], i) == if i == 0 then h else Next(ring, i - 1)
  {
  }

  lemma LinkDistinct(ring: seq<int>, h: int)
    requires 0 < |ring| && Distinct(ring) && h !in ring
    ensures Distinct([ring[0], h] + ring[1..])
  {
    var r := [ring[0], h] + ring[1..];
    forall i, j | 0 <= i < j < |r| ensures r[i] != r[j] {
      LinkAt(ring, h, i);
      LinkAt(ring, h, j);
    }
  }

  lemma LinkLinked(m: Memory, ring: seq<int>, h: int, m': Memory)
    requires Linked(m, ring)
    requires 0 <= h < |m| && h !in ring
    requires |m'| == |m|
    requires m'[h].next == Next(ring, 0) && m'[ring[0]].next == h
    requires forall k :: 0 <= k < |m| && k != h && k != ring[0] ==> m'[k].next == m[k].next
    ensures Linked(m', [ring[0], h] + ring[1..])
  {
    var r := [ring[0], h] + ring[1..];
    LinkDistinct(ring, h);
    forall i | 0 <= i < |r| ensures 0 <= r[i] < |m'| && m'[r[i]].next == Next(r, i) {
      LinkAt(ring, h, i);
      assert i >= 2 ==> ring[0] != ring[i - 1];
    }
  }

  lemma LinkElements(ring: seq<int>, h: int)
    requires 0 < |ring|
    ensures forall k :: k in [ring[0], h] + ring[1..] <==> k in ring || k == h
  {
    assert ring == [ring[0]] + ring[1..];
  }

  ghost function Link(l: Layout, h: int): Layout
    requires 0 < |l.ring|
  {
    l.(ring := [l.ring[0], h] + l.ring[1..], live := l.live - {h})
  }

  /** Linking a live header frees it without touching the tiling. */
  lemma LinkValid(m: Memory, base: int, l: Layout, h: int, m': Memory)
    requires Valid(m, base, l)
    requires h in l.live
    requires |m'| == |m|
    requires m'[h] == m[h].(next := Next(l.ring, 0)) && m'[l.ring[0]] == m[l.ring[0]].(next := h)
    requires forall k :: 0 <= k < |m| && k != h && k != l.ring[0] ==> m'[k] == m[k]
    ensures Valid(m', base, Link(l, h))
  {
    LinkLinked(m, l.ring, h, m');
    LinkElements(l.ring, h);
    TiledFrame(m, m', l.blocks, l.owner);
  }

  // Unlinking the successor of an entry.

  ghost function Without(ring: seq<int>, i: int): seq<int>
    requires 0 <= i < |ring|
  {
    ring[..i] + ring[i + 1..]
  }

  lemma WithoutElements(ring: seq<int>, i: int)
    requires 0 <= i < |ring| && Distinct(ring)
    ensures Distinct(Without(ring, i))
    ensures forall h :: h in Without(ring, i) <==> h in ring && h != ring[i]
  {
    assert ring == ring[..i] + [ring[i]] + ring[i + 1..];
    forall h | h in Without(ring, i) ensures h != ring[i] {
      var j :| 0 <= j < |Without(ring, i)| && Without(ring, i)[j] == h;
      assert h == ring[if j < i then j else j + 1];
    }
  }

  lemma UnlinkLinked(m: Memory, ring: seq<int>, i: int, m': Memory)
    requires Linked(m, ring)
    requires 0 <= i && i + 1 < |ring|
    requires |m'| == |m|
    requires m'[ring[i]].next == m[ring[i + 1]].next
    requires forall k :: 0 <= k < |m| && k != ring[i] && k != ring[i + 1] ==> m'[k].next == m[k].next
    ensures Linked(m', Without(ring, i + 1))
  {
    var r := Without(ring, i + 1);
    WithoutElements(ring, i + 1);
    forall j | 0 <= j < |r| ensures 0 <= r[j] < |m'| && m'[r[j]].next == Next(r, j) {
      var o := if j <= i then j else j + 1;
      assert r[j] == ring[o];
      assert j != i ==> Next(r, j) == Next(ring, o);
      assert Next(r, i) == Next(ring, i + 1);
    }
  }

  ghost function Take(l: Layout): Layout
    requires 1 < |l.ring|
  {
    l.(ring := Without(l.ring, 1), live := l.live + {l.ring[1]})
  }

  /** Handing out a whole free block. */
  lemma TakeValid(m: Memory, base: int, l: Layout, m': Memory)
    requires Valid(m, base, l)
    requires 1 < |l.ring| && l.ring[1] != base
    requires |m'| == |m| && m'[l.ring[0]] == m[l.ring[0]].(next := m[l.ring[1]].next)
    requires forall k :: 0 <= k < |m| && k != l.ring[0] ==> m'[k] == m[k]
    ensures Valid(m', base, Take(l))
  {
    UnlinkLinked(m, l.ring, 0, m');
    WithoutElements(l.ring, 1);
    TiledFrame(m, m', l.blocks, l.owner);
  }

  // Merging two free blocks that are neighbours both in the list and in memory.

  ghost function MergeOwner(owner: map<int, int>, a: int, b: int): (r: map<int, int>)
    ensures r.Keys == owner.Keys
  {
    map u | u in owner :: if owner[u] == b then a else owner[u]
  }

  lemma MergeTiled(m: Memory, blocks: set<int>, owner: map<int, int>, a: int, b: int, m': Memory)
    requires Tiled(m, blocks, owner)
    requires a in blocks && b in blocks && a != b
    requires a + m[a].size / HEADER == b
    requires |m'| == |m| && m'[a].size == m[a].size + m[b].size
    requires forall h :: h in blocks && h != a && h != b ==> m'[h].size == m[h].size
    ensures Tiled(m', blocks - {b}, MergeOwner(owner, a, b))
  {
    var owner' := MergeOwner(owner, a, b);
    forall u, h | h in blocks - {b}
      ensures (u in owner' && owner'[u] == h) <==> Within(m', h, u)
    {
      assert Within(m, h, u) <==> u in owner && owner[u] == h;
      assert Within(m, b, u) <==> u in owner && owner[u] == b;
    }
  }

  ghost function Merge(l: Layout, i: int): Layout
    requires 0 <= i && i + 1 < |l.ring|
  {
    l.(ring := Without(l.ring, i + 1),
       blocks := l.blocks - {l.ring[i + 1]},
       owner := MergeOwner(l.owner, l.ring[i], l.ring[i + 1]))
  }

  /** Absorbing the free block that starts where its list predecessor ends. */
  lemma MergeValid(m: Memory, base: int, l: Layout, i: int, m': Memory)
    requires Valid(m, base, l)
    requires 0 <= i && i + 1 < |l.ring|
    requires l.ring[i] != base && l.ring[i + 1] != base
    requires l.ring[i] + m[l.ring[i]].size / HEADER == l.ring[i + 1]
    requires |m'| == |m|
    requires m'[l.ring[i]] == Header(m[l.ring[i + 1]].next, m[l.ring[i]].size + m[l.ring[i + 1]].size)
    requires forall k :: 0 <= k < |m| && k != l.ring[i] && k != l.ring[i + 1] ==> m'[k] == m[k]
    ensures Valid(m', base, Merge(l, i))
  {
    UnlinkLinked(m, l.ring, i, m');
    WithoutElements(l.ring, i + 1);
    MergeTiled(m, l.blocks, l.owner, l.ring[i], l.ring[i + 1], m');
  }

  // Cutting the tail off a free block and handing the tail out.

  lemma UnitsSplit(a: int, b: int)
    requires a % HEADER == 0 && b % HEADER == 0 && 0 <= b <= a
    ensures (a - b) % HEADER == 0 && (a - b) / HEADER == a / HEADER - b / HEADER
  {
  }

  ghost function SplitOwner(owner: map<int, int>, t: int, units: int): (r: map<int, int>)
    ensures r.Keys == owner.Keys
  {
    map u | u in owner :: if t <= u < t + units then t else owner[u]
  }

  lemma SplitTiled(m: Memory, blocks: set<int>, owner: map<int, int>, c: int, bytes: int, t: int, m': Memory)
    requires Tiled(m, blocks, owner)
    requires c in blocks && bytes % HEADER == 0 && 0 < bytes < m[c].size
    requires t == c + (m[c].size - bytes) / HEADER
    requires |m'| == |m| && t < |m|
    requires m'[c].size == m[c].size - bytes && m'[t].size == bytes
    requires forall h :: h in blocks && h != c && h != t ==> m'[h].size == m[h].size
    ensures t !in blocks && t in owner && owner[t] == c
    ensures Tiled(m', blocks + {t}, SplitOwner(owner, t, bytes / HEADER))
  {
    var owner' := SplitOwner(owner, t, bytes / HEADER);
    UnitsSplit(m[c].size, bytes);
    assert Within(m, c, t);
    if t in blocks { BlockOwnsHeader(m, blocks, owner, t); }
    forall u, h | h in blocks + {t}
      ensures (u in owner' && owner'[u] == h) <==> Within(m', h, u)
    {
      assert Within(m, c, u) <==> u in owner && owner[u] == c;
      if h != t {
        assert Within(m, h, u) <==> u in owner && owner[u] == h;
      }
    }
  }

  ghost function Split(l: Layout, t: int, bytes: int): Layout {
    l.(live := l.live + {t}, blocks := l.blocks + {t}, owner := SplitOwner(l.owner, t, bytes / HEADER))
  }

  lemma SplitInside(m: Memory, base: int, l: Layout, c: int, bytes: int)
    requires Arena(m, base, l)
    requires c in l.blocks && bytes % HEADER == 0 && 0 < bytes < m[c].size
    ensures c < c + (m[c].size - bytes) / HEADER < |m|
  {
    UnitsSplit(m[c].size, bytes);
    assert Within(m, c, c + (m[c].size - bytes) / HEADER);
  }

  lemma SplitValid(m: Memory, base: int, l: Layout, c: int, bytes: int, t: int, m': Memory)
    requires Valid(m, base, l)
    requires c in l.ring && c != base
    requires bytes % HEADER == 0 && 0 < bytes < m[c].size
    requires t == c + (m[c].size - bytes) / HEADER
    requires |m'| == |m| && t < |m|
    requires m'[c] == m[c].(size := m[c].size - bytes) && m'[t] == m[t].(size := bytes)
    requires forall k :: 0 <= k < |m| && k != c && k != t ==> m'[k] == m[k]
    ensures t !in l.blocks && t !in l.ring && t in l.owner && l.owner[t] == c
    ensures Valid(m', base, Split(l, t, bytes))
  {
    SplitTiled(m, l.blocks, l.owner, c, bytes, t, m');
    assert base < t;
    SameLinks(m, l.ring, m');
  }

  lemma SameLinks(m: Memory, ring: seq<int>, m': Memory)
    requires Linked(m, ring)
    requires |m'| == |m| && forall k :: 0 <= k < |m| ==> m'[k].next == m[k].next
    ensures Linked(m', ring)
  {
  }

  // Splicing freshly obtained pages directly behind the first free header.

  lemma WholeUnits(units: int)
    ensures units * HEADER % HEADER == 0 && units * HEADER / HEADER == units
  {
  }

  ghost function GrowOwner(owner: map<int, int>, p: int, units: int): (r: map<int, int>)
    requires 0 <= units
    ensures r.Keys == owner.Keys + Interval(p, p + units)
    ensures forall u :: u in r ==> r[u] == if p <= u < p + units then p else owner[u]
  {
    map u | u in owner.Keys + Interval(p, p + units) :: if p <= u < p + units then p else owner[u]
  }

  lemma GrowTiled(m: Memory, blocks: set<int>, owner: map<int, int>, p: int, units: int, m': Memory,
                  owner': map<int, int>)
    requires Tiled(m, blocks, owner)
    requires 0 < units && 0 <= p < |m| && p !in blocks
    requires forall u :: u in owner ==> !(p <= u < p + units)
    requires |m'| == |m| && m'[p].size == units * HEADER
    requires forall h :: h in blocks ==> m'[h].size == m[h].size
    requires forall u :: u in owner' <==> u in owner || p <= u < p + units
    requires forall u :: u in owner' ==> owner'[u] == if p <= u < p + units then p else owner[u]
    ensures Tiled(m', blocks + {p}, owner')
  {
    WholeUnits(units);
    forall u, h | h in blocks + {p}
      ensures (u in owner' && owner'[u] == h) <==> Within(m', h, u)
    {
      if h != p {
        assert Within(m, h, u) <==> u in owner && owner[u] == h;
        assert Within(m', h, u) <==> Within(m, h, u);
      }
    }
  }

  lemma FreshPages(units: set<int>, pages: set<int>, page: int, n: int)
    requires 0 < n && CoversPages(units, pages)
    requires forall q :: q in pages ==> !(page <= q < page + n)
    ensures forall u :: u in units ==> !(page * PAGE_UNITS <= u < page * PAGE_UNITS + n * PAGE_UNITS)
    ensures CoversPages(units + Interval(page * PAGE_UNITS, page * PAGE_UNITS + n * PAGE_UNITS),
                        pages + Interval(page, page + n))
  {
    var span := Interval(page * PAGE_UNITS, page * PAGE_UNITS + n * PAGE_UNITS);
    forall u ensures u in units + span <==> u / PAGE_UNITS in pages + Interval(page, page + n) {
      assert u in units <==> u / PAGE_UNITS in pages;
    }
  }

  ghost function Grow(l: Layout, page: int, n: int): Layout
    requires 0 < |l.ring| && 0 <= n
  {
    var p := page * PAGE_UNITS;
    Layout([l.ring[0], p] + l.ring[1..], l.live, l.blocks + {p}, GrowOwner(l.owner, p, n * PAGE_UNITS),
           l.pages + Interval(page, page + n))
  }

  lemma FreshHeader(m: Memory, base: int, l: Layout, page: int)
    requires Valid(m, base, l)
    requires page !in l.pages && base < page * PAGE_UNITS
    ensures var p := page * PAGE_UNITS; p !in l.owner && p !in l.blocks && p !in l.ring
  {
    var p := page * PAGE_UNITS;
    assert p / PAGE_UNITS == page;
    if p in l.blocks { BlockOwnsHeader(m, l.blocks, l.owner, p); }
  }

  /** `n` pages from `page` on are above the sentinel, inside memory and not owned yet. */
  ghost predicate Fresh(base: int, limit: int, pages: set<int>, page: int, n: int) {
    && 0 < n
    && base < page * PAGE_UNITS && 0 <= page
    && page * PAGE_UNITS + n * PAGE_UNITS <= limit
    && (forall q :: q in pages ==> !(page <= q < page + n))
  }

  lemma GrowArena(m: Memory, base: int, l: Layout, page: int, n: int, p: int, m': Memory)
    requires Valid(m, base, l)
    requires Fresh(base, |m|, l.pages, page, n) && p == page * PAGE_UNITS
    requires |m'| == |m| && m'[p].size == n * PAGE
    requires forall h :: 0 <= h < |m| && h != p ==> m'[h].size == m[h].size
    ensures Arena(m', base, Grow(l, page, n))
  {
    FreshHeader(m, base, l, page);
    FreshPages(l.owner.Keys, l.pages, page, n);
    GrowTiled(m, l.blocks, l.owner, p, n * PAGE_UNITS, m', GrowOwner(l.owner, p, n * PAGE_UNITS));
  }

  /** Splicing freshly obtained pages directly behind the first free header. */
  lemma GrowValid(m: Memory, base: int, l: Layout, page: int, n: int, p: int, m': Memory)
    requires Valid(m, base, l)
    requires Fresh(base, |m|, l.pages, page, n) && p == page * PAGE_UNITS
    requires |m'| == |m| && m'[p] == Header(Next(l.ring, 0), n * PAGE)
    requires l.ring[0] != p ==> m'[l.ring[0]] == m[l.ring[0]].(next := p)
    requires forall k :: 0 <= k < |m| && k != p && k != l.ring[0] ==> m'[k] == m[k]
    ensures p !in l.owner && p !in l.blocks && p !in l.ring
    ensures Valid(m', base, Grow(l, page, n))
  {
    FreshHeader(m, base, l, page);
    GrowArena(m, base, l, page, n, p, m');
    hide Arena, GrowOwner, Distinct;
    LinkLinked(m, l.ring, p, m');
    LinkElements(l.ring, p);
  }

  /** Memory with a block of `size` bytes at `p` linked behind `head`. */
  function SpliceMem(m: Memory, head: int, p: int, size: int): Memory
    requires 0 <= head < |m| && 0 <= p < |m|
  {
    var m' := m[p := Header(m[head].next, size)];
    m'[head := m'[head].(next := p)]
  }

  lemma SpliceCells(m: Memory, head: int, p: int, size: int, m': Memory)
    requires 0 <= head < |m| && 0 <= p < |m| && head != p && |m'| == |m|
    requires m'[p] == Header(m[head].next, size) && m'[head] == m[head].(next := p)
    requires forall k :: 0 <= k < |m| && k != p && k != head ==> m'[k] == m[k]
    ensures m' == SpliceMem(m, head, p, size)
  {
  }

  /** Where fresh pages go is neither the sentinel, nor listed, nor a block. */
  /** Pages not obtained before hold no owned unit. */
  lemma FreshNotOwned(m: Memory, base: int, l: Layout, page: int, n: int)
    requires Valid(m, base, l) && Fresh(base, |m|, l.pages, page, n)
    ensures NotOwned(l.owner, page * PAGE_UNITS, n * PAGE_UNITS)
  {
    forall u | page * PAGE_UNITS <= u < page * PAGE_UNITS + n * PAGE_UNITS ensures u !in l.owner {
      assert page <= u / PAGE_UNITS < page + n;
      assert u in l.owner.Keys <==> u / PAGE_UNITS in l.pages;
    }
  }

  lemma SplicePlace(m: Memory, base: int, l: Layout, page: int, n: int)
    requires Valid(m, base, l) && Fresh(base, |m|, l.pages, page, n)
    ensures var p := page * PAGE_UNITS;
            && |l.ring| > 0 && 0 <= l.ring[0] < |m| && m[l.ring[0]].next == Next(l.ring, 0)
            && l.ring[0] != p && 0 <= p < |m| && 0 < n && p !in l.owner && p != base
            && forall h :: h in l.live ==> 0 <= h < |m| && h != l.ring[0] && h != p
  {
    RingEntry(m, base, l, 0);
    FreshHeader(m, base, l, page);
    LiveInRange(m, base, l);
    assert page * PAGE_UNITS != base;
    hide Valid, Fresh;
    forall h | h in l.live ensures h !in l.ring && h in l.owner { LiveNotListed(m, base, l, h); }
  }

  /** The pages from `page` on are one free block behind the first listed header, and no live block changed. */
  ghost predicate Spliced(m: Memory, base: int, was: Layout, page: int, n: int, m': Memory, now: Layout)
    requires 0 < |was.ring| && 0 <= n
  {
    var p := page * PAGE_UNITS;
    && Valid(m', base, now) && now == Grow(was, page, n)
    && |now.ring| > 1 && now.ring[0] == was.ring[0] && now.ring[1] == p && now.live == was.live
    && p !in was.owner && p != base && 0 <= p < |m'| && m'[p].size == n * PAGE
    && |m'| == |m| && (forall h :: h in was.live ==> 0 <= h < |m| && m'[h] == m[h])
    && Untouched(m, m', was.owner, was.live) && NotOwned(was.owner, p, n * PAGE_UNITS)
  }

  lemma SpliceValid(m: Memory, base: int, l: Layout, page: int, n: int)
    requires Valid(m, base, l) && Fresh(base, |m|, l.pages, page, n)
    ensures var p := page * PAGE_UNITS;
            && |l.ring| > 0 && 0 <= l.ring[0] < |m| && l.ring[0] != p && 0 <= p < |m| && 0 < n
            && Spliced(m, base, l, page, n, SpliceMem(m, l.ring[0], p, n * PAGE), Grow(l, page, n))
  {
    SplicePlace(m, base, l, page, n);
    var p := page * PAGE_UNITS;
    var m' := SpliceMem(m, l.ring[0], p, n * PAGE);
    ListedNotLive(m, base, l, l.ring[0]);
    FreshNotOwned(m, base, l, page, n);
    hide Valid, Fresh, Untouched, NotOwned;
    WritesUntouched(m, m', base, l, l.live, l.ring[0], p);
    GrowValid(m, base, l, page, n, p, m');
  }

  // ----- rings in address order -----

  /** Following the links, addresses rise until the ring returns to the sentinel. */
  ghost predicate Ascending(ring: seq<int>, base: int) {
    forall i {:trigger Next(ring, i)} :: 0 <= i < |ring| ==> Next(ring, i) == base || ring[i] < Next(ring, i)
  }

  /** Free block `k` starts exactly where the free block `h` ends. */
  predicate Touch(m: Memory, h: int, k: int) {
    0 <= h < |m| && h != k && h + m[h].size / HEADER == k
  }

  /** No two free blocks touch. */
  ghost predicate Apart(m: Memory, ring: seq<int>) {
    forall h, k {:trigger Touch(m, h, k)} :: h in ring && k in ring ==> !Touch(m, h, k)
  }

  lemma RotateAscending(ring: seq<int>, base: int, k: int)
    requires Ascending(ring, base) && 0 <= k < |ring|
    ensures Ascending(Rotate(ring, k), base)
  {
    var r := Rotate(ring, k);
    forall i | 0 <= i < |r| ensures Next(r, i) == base || r[i] < Next(r, i) {
      RotateAt(ring, k, i);
    }
  }

  lemma {:induction false} AscendingOrder(ring: seq<int>, base: int, i: int, j: int)
    requires Ascending(ring, base) && Distinct(ring)
    requires 0 <= i < j < |ring| && ring[0] == base
    ensures ring[i] < ring[j]
    decreases j
  {
    assert ring[j] != ring[0];
    assert Next(ring, j - 1) == ring[j];
    if i < j - 1 { AscendingOrder(ring, base, i, j - 1); }
  }

  /** In an ascending ring no header lies between two linked neighbours. */
  lemma NoneBetween(ring: seq<int>, base: int, i: int, k: int)
    requires Ascending(ring, base) && Distinct(ring) && base in ring
    requires 0 <= i < |ring| && k in ring
    ensures k <= ring[i] || (Next(ring, i) != base && k >= Next(ring, i))
  {
    var b :| 0 <= b < |ring| && ring[b] == base;
    var r, n := Rotate(ring, b), |ring|;
    RotateAscending(ring, base, b);
    RotateElements(ring, b);
    RotateDistinct(ring, b);
    RotateAt(ring, b, 0);
    var i' := if i >= b then i - b else i + n - b;
    RotateAt(ring, b, i');
    var j :| 0 <= j < n && r[j] == k;
    if j > i' {
      AscendingOrder(r, base, i', j);
      AscendingOrder(r, base, 0, i' + 1);
      if j > i' + 1 { AscendingOrder(r, base, i' + 1, j); }
    } else if j < i' {
      AscendingOrder(r, base, j, i');
    }
  }

  lemma RotateDistinct(ring: seq<int>, k: int)
    requires Distinct(ring) && 0 <= k < |ring|
    ensures Distinct(Rotate(ring, k))
  {
    forall i, j | 0 <= i < j < |ring| ensures Rotate(ring, k)[i] != Rotate(ring, k)[j] {
      RotateAt(ring, k, i);
      RotateAt(ring, k, j);
    }
  }

  lemma UnlinkAscending(ring: seq<int>, base: int, i: int)
    requires Ascending(ring, base) && 0 <= i && i + 1 < |ring| && ring[i + 1] != base
    ensures Ascending(Without(ring, i + 1), base)
  {
    var r := Without(ring, i + 1);
    forall j | 0 <= j < |r| ensures Next(r, j) == base || r[j] < Next(r, j) {
      var o := if j <= i then j else j + 1;
      assert r[j] == ring[o];
      assert j != i ==> Next(r, j) == Next(ring, o);
      assert Next(r, i) == Next(ring, i + 1);
      assert Next(ring, i) == ring[i + 1];
    }
  }

  lemma LinkAscending(ring: seq<int>, base: int, h: int)
    requires Ascending(ring, base) && 0 < |ring| && base < h
    requires Accepts(ring[0], Next(ring, 0), h)
    ensures ring[0] < h && (Next(ring, 0) == base || h < Next(ring, 0))
    ensures Ascending([ring[0], h] + ring[1..], base)
  {
    var r := [ring[0], h] + ring[1..];
    assert Next(ring, 0) == base || ring[0] < Next(ring, 0);
    forall i | 0 <= i < |r| ensures Next(r, i) == base || r[i] < Next(r, i) {
      if i >= 2 { assert r[i] == ring[i - 1]; assert Next(r, i) == Next(ring, i - 1); }
    }
  }

  /** The only free blocks that touch are `x` then `y`. */
  ghost predicate TouchOnly(m: Memory, ring: seq<int>, pairs: set<(int, int)>) {
    forall h, k {:trigger Touch(m, h, k)} :: h in ring && k in ring && Touch(m, h, k) ==> (h, k) in pairs
  }

  /** A header linked at its address-order edge can touch only the two blocks it went between. */
  lemma LinkTouches(m: Memory, base: int, l: Layout, h: int, m': Memory)
    requires Valid(m, base, l) && h in l.live
    requires Ascending(l.ring, base) && Apart(m, l.ring)
    requires Accepts(l.ring[0], Next(l.ring, 0), h)
    requires |m'| == |m| && forall k :: 0 <= k < |m| ==> m'[k].size == m[k].size
    ensures TouchOnly(m', [l.ring[0], h] + l.ring[1..], {(l.ring[0], h), (h, Next(l.ring, 0))})
  {
    var r, node, nxt := [l.ring[0], h] + l.ring[1..], l.ring[0], Next(l.ring, 0);
    BlockOwnsHeader(m, l.blocks, l.owner, h);
    LinkAscending(l.ring, base, h);
    LinkElements(l.ring, h);
    forall a, b | a in r && b in r && Touch(m', a, b)
      ensures (a, b) in {(node, h), (h, nxt)}
    {
      assert Touch(m, a, b);
      if b == h && a != node {
        NoneBetween(l.ring, base, 0, a);
        SizesPositive(m, base, l, a);
        SizesPositive(m, base, l, node);
        BlocksDisjoint(m, l.blocks, l.owner, a, node);
      } else if a == h && b != nxt {
        NoneBetween(l.ring, base, 0, b);
        SizesPositive(m, base, l, b);
        BlocksDisjoint(m, l.blocks, l.owner, h, nxt);
      }
    }
  }

  lemma SizesPositive(m: Memory, base: int, l: Layout, h: int)
    requires Valid(m, base, l) && h in l.ring
    ensures h == base || (h in l.blocks && h > base && m[h].size / HEADER >= 1)
    ensures h >= base
  {
    if h != base {
      assert h in l.blocks;
      BlockOwnsHeader(m, l.blocks, l.owner, h);
    }
  }

  /** Merging `i` with its successor removes exactly the contact between the two. */
  lemma MergeTouches(m: Memory, base: int, l: Layout, i: int, m': Memory, pairs: set<(int, int)>)
    requires Valid(m, base, l)
    requires 0 <= i && i + 1 < |l.ring|
    requires l.ring[i] != base && l.ring[i + 1] != base
    requires l.ring[i] + m[l.ring[i]].size / HEADER == l.ring[i + 1]
    requires |m'| == |m| && m'[l.ring[i]].size == m[l.ring[i]].size + m[l.ring[i + 1]].size
    requires forall k :: 0 <= k < |m| && k != l.ring[i] && k != l.ring[i + 1] ==> m'[k].size == m[k].size
    requires TouchOnly(m, l.ring, pairs + {(l.ring[i], l.ring[i + 1])})
    requires forall e :: e in pairs ==> e.0 != l.ring[i + 1]
    ensures TouchOnly(m', Without(l.ring, i + 1), pairs)
  {
    var a, b, r := l.ring[i], l.ring[i + 1], Without(l.ring, i + 1);
    WithoutElements(l.ring, i + 1);
    SizesPositive(m, base, l, a);
    SizesPositive(m, base, l, b);
    assert m[a].size % HEADER == 0 && m[b].size % HEADER == 0 by {
      assert a in l.blocks && b in l.blocks;
    }
    forall h, k | h in r && k in r && Touch(m', h, k) ensures (h, k) in pairs {
      if h == a {
        assert m'[a].size / HEADER == m[a].size / HEADER + m[b].size / HEADER;
        assert Touch(m, b, k);
      } else {
        assert Touch(m, h, k);
      }
    }
  }

  lemma RotateTouches(m: Memory, ring: seq<int>, k: int)
    requires Apart(m, ring) && 0 <= k < |ring|
    ensures Apart(m, Rotate(ring, k))
  {
    RotateElements(ring, k);
  }

  lemma TakeTouches(m: Memory, ring: seq<int>, m': Memory)
    requires Linked(m, ring) && Apart(m, ring) && 1 < |ring|
    requires |m'| == |m| && forall k :: 0 <= k < |m| ==> m'[k].size == m[k].size
    ensures Apart(m', Without(ring, 1))
  {
    WithoutElements(ring, 1);
    forall h, k | h in Without(ring, 1) && k in Without(ring, 1) ensures !Touch(m', h, k) {
      assert !Touch(m, h, k);
    }
  }

  /** Cutting a tail off a free block leaves it touching nothing: the tail is not free. */
  lemma SplitTouches(m: Memory, ring: seq<int>, c: int, t: int, m': Memory)
    requires Linked(m, ring) && Apart(m, ring) && c in ring && t !in ring
    requires |m'| == |m| && c + m'[c].size / HEADER == t
    requires forall k :: 0 <= k < |m| && k != c && k != t ==> m'[k].size == m[k].size
    ensures Apart(m', ring)
  {
    forall h, k | h in ring && k in ring ensures !Touch(m', h, k) {
      assert !Touch(m, h, k);
    }
  }

  /** The free list is in address order and no two free blocks touch. */
  ghost predicate Coalesced(m: Memory, base: int, l: Layout) {
    Ascending(l.ring, base) && Apart(m, l.ring)
  }

  lemma RotateCoalesced(m: Memory, base: int, l: Layout, k: int)
    requires Coalesced(m, base, l) && 0 <= k < |l.ring|
    ensures Coalesced(m, base, l.(ring := Rotate(l.ring, k)))
  {
    RotateAscending(l.ring, base, k);
    RotateTouches(m, l.ring, k);
  }

  // ----- what belongs to the clients -----

  /** No unit of a live block has changed, header or contents. */
  ghost predicate Untouched(m: Memory, m': Memory, owner: map<int, int>, live: set<int>) {
    && |m'| == |m|
    && forall u {:trigger m'[u]} {:trigger owner[u]} :: u in owner && owner[u] in live ==>
         0 <= u < |m| && m'[u] == m[u]
  }

  /** Only units of free blocks, or of none, were written. */
  lemma WritesUntouched(m: Memory, m': Memory, base: int, l: Layout, live: set<int>, a: int, b: int)
    requires Valid(m, base, l) && live <= l.live && |m'| == |m|
    requires forall u :: 0 <= u < |m| && u != a && u != b ==> m'[u] == m[u]
    requires a in l.owner ==> l.owner[a] !in live
    requires b in l.owner ==> l.owner[b] !in live
    ensures Untouched(m, m', l.owner, live)
  {
  }

  /** A listed header lies in no live block. */
  lemma ListedNotLive(m: Memory, base: int, l: Layout, k: int)
    requires Valid(m, base, l) && k in l.ring
    ensures k in l.owner ==> l.owner[k] !in l.live
  {
    if k != base { BlockOwnsHeader(m, l.blocks, l.owner, k); }
  }

  lemma BlockOfLive(m: Memory, base: int, l: Layout, h: int)
    requires Valid(m, base, l) && h in l.live
    ensures 0 <= h < |m| && h in l.owner && l.owner[h] == h
  {
    BlockOwnsHeader(m, l.blocks, l.owner, h);
  }

  lemma UntouchedThen(a: Memory, b: Memory, c: Memory, owner: map<int, int>, owner': map<int, int>, live: set<int>)
    requires Untouched(a, b, owner, live) && Untouched(b, c, owner', live)
    requires forall u :: u in owner && owner[u] in live ==> u in owner' && owner'[u] == owner[u]
    ensures Untouched(a, c, owner, live)
  {
    forall u | u in owner && owner[u] in live ensures 0 <= u < |a| && c[u] == a[u] {
      assert b[u] == a[u];
    }
  }

  /** What a client writes behind the header of its own block leaves the heap as it is. */
  lemma ClientWrites(m: Memory, base: int, l: Layout, b: int, u: int, w: Header)
    requires Valid(m, base, l) && b in l.live && u in l.owner && l.owner[u] == b && u != b
    ensures 0 <= u < |m| && Valid(m[u := w], base, l)
    ensures Coalesced(m, base, l) ==> Coalesced(m[u := w], base, l)
  {
    var m' := m[u := w];
    assert forall h :: h in l.blocks ==> h != u by {
      forall h | h in l.blocks ensures h != u { BlockOwnsHeader(m, l.blocks, l.owner, h); }
    }
    assert u != base;
    assert u !in l.ring;
    TiledFrame(m, m', l.blocks, l.owner);
    if Coalesced(m, base, l) {
      forall h, k | h in l.ring && k in l.ring ensures !Touch(m', h, k) { assert !Touch(m, h, k); }
    }
  }

  // ----- carving a request off a free block -----

  /** The header `bytes` below the end of block `c`. */
  function Tail(m: Memory, c: int, bytes: int): int
    requires 0 <= c < |m|
  {
    c + (m[c].size - bytes) / HEADER
  }

  /** `header` is the end of block `c` and live now, and no unit of a block that was live changed. */
  ghost predicate CutOff(m: Memory, was: Layout, c: int, bytes: int, header: int, m': Memory, now: Layout)
    requires 0 <= c < |m|
  {
    && header == Tail(m, c, bytes)
    && header !in was.live && now.live == was.live + {header}
    && now.pages == was.pages && 0 <= header < |m'| && m'[header].size == bytes && |m'| == |m|
    && (forall h :: h in was.live ==> 0 <= h < |m| && m'[h] == m[h])
    && Untouched(m, m', was.owner, was.live)
  }

  /** `header` was cut from the end of the free block `c`: it is live now, every block that was
      live is untouched, and a coalesced free list stays coalesced. */
  ghost predicate Carved(m: Memory, base: int, was: Layout, c: int, bytes: int, header: int, m': Memory, now: Layout)
    requires 0 <= c < |m|
  {
    && Valid(m', base, now) && CutOff(m, was, c, bytes, header, m', now)
    && header in was.owner && was.owner[header] == c && c !in was.live
    && now.owner == SplitOwner(was.owner, header, bytes / HEADER)
    && (Coalesced(m, base, was) ==> Coalesced(m', base, now))
  }

  lemma CarvedIsCutOff(m: Memory, base: int, was: Layout, c: int, bytes: int, header: int, m': Memory, now: Layout)
    requires 0 <= c < |m| && Carved(m, base, was, c, bytes, header, m', now)
    ensures CutOff(m, was, c, bytes, header, m', now)
  {
  }

  /** `header` was cut from `n` pages obtained for the purpose. */
  ghost predicate CarvedFresh(m: Memory, was: Layout, page: int, n: int, bytes: int, header: int, m': Memory,
                              now: Layout)
    requires 0 <= n
  {
    && header == page * PAGE_UNITS + (n * PAGE - bytes) / HEADER
    && header !in was.live && now.live == was.live + {header}
    && now.pages == was.pages + Interval(page, page + n)
    && 0 <= header < |m'| && m'[header].size == bytes
    && |m'| == |m|
    && (forall h :: h in was.live ==> 0 <= h < |m| && m'[h] == m[h])
    && Untouched(m, m', was.owner, was.live)
  }

  ghost predicate NotOwned(owner: map<int, int>, first: int, n: int) {
    forall u {:trigger u in owner} :: u in owner ==> !(first <= u < first + n)
  }

  lemma CarveGrown(m: Memory, was: Layout, page: int, n: int, mid: Memory, bytes: int, header: int, m': Memory,
                   now: Layout)
    requires 0 < |was.ring| && 0 <= n && |mid| == |m|
    requires 0 <= page * PAGE_UNITS < |mid| && mid[page * PAGE_UNITS].size == n * PAGE
    requires CutOff(mid, Grow(was, page, n), page * PAGE_UNITS, bytes, header, m', now)
    requires forall h :: h in was.live ==> 0 <= h < |m| && mid[h] == m[h]
    requires Untouched(m, mid, was.owner, was.live)
    requires NotOwned(was.owner, page * PAGE_UNITS, n * PAGE_UNITS)
    ensures CarvedFresh(m, was, page, n, bytes, header, m', now)
  {
    UntouchedThen(m, mid, m', was.owner, Grow(was, page, n).owner, was.live);
  }

  lemma WholeOwner(m: Memory, blocks: set<int>, owner: map<int, int>, c: int)
    requires Tiled(m, blocks, owner) && c in blocks
    ensures SplitOwner(owner, c, m[c].size / HEADER) == owner
  {
    forall u | u in owner && c <= u < c + m[c].size / HEADER ensures owner[u] == c {
      assert Within(m, c, u);
    }
  }

  /** The second listed block is free and its own owner, and no live block is listed first. */
  lemma SecondFree(m: Memory, base: int, l: Layout)
    requires Valid(m, base, l) && 1 < |l.ring| && l.ring[1] != base
    ensures var c := l.ring[1];
            && 0 <= c < |m| && 0 <= l.ring[0] < |m| && c !in l.live && c in l.owner && l.owner[c] == c
            && SplitOwner(l.owner, c, m[c].size / HEADER) == l.owner
    ensures forall h :: h in l.live ==> 0 <= h < |m| && h != l.ring[0]
  {
    var c := l.ring[1];
    assert l.ring[0] in l.ring && c in l.ring;
    BlockOwnsHeader(m, l.blocks, l.owner, c);
    WholeOwner(m, l.blocks, l.owner, c);
  }

  lemma TakeCoalesced(m: Memory, base: int, l: Layout, m': Memory)
    requires Linked(m, l.ring) && Coalesced(m, base, l) && 1 < |l.ring| && l.ring[1] != base
    requires |m'| == |m| && forall k :: 0 <= k < |m| ==> m'[k].size == m[k].size
    ensures Coalesced(m', base, Take(l))
  {
    UnlinkAscending(l.ring, base, 0);
    TakeTouches(m, l.ring, m');
  }

  lemma CarveWhole(m: Memory, base: int, was: Layout, i: int, m': Memory)
    requires Valid(m, base, was)
    requires 0 <= i < |was.ring| && Next(was.ring, i) != base
    requires var prev, c := was.ring[i], Next(was.ring, i);
             |m'| == |m| && m'[prev] == m[prev].(next := m[c].next)
             && forall k :: 0 <= k < |m| && k != prev ==> m'[k] == m[k]
    ensures var c := Next(was.ring, i);
            var now := Take(was.(ring := Rotate(was.ring, i)));
            now.ring[0] == was.ring[i] && Carved(m, base, was, c, m[c].size, c, m', now)
  {
    var prev, c, l := was.ring[i], Next(was.ring, i), was.(ring := Rotate(was.ring, i));
    RotateValid(m, base, was, i);
    assert l.ring[0] == prev && 1 < |l.ring| && l.ring[1] == c;
    assert Linked(m, l.ring);
    assert prev in was.ring;
    ListedNotLive(m, base, was, prev);
    hide Valid, Coalesced, Linked, Rotate, SplitOwner, Untouched;
    WritesUntouched(m, m', base, was, was.live, prev, prev);
    SecondFree(m, base, l);
    TakeValid(m, base, l, m');
    if Coalesced(m, base, was) {
      RotateCoalesced(m, base, was, i);
      TakeCoalesced(m, base, l, m');
    }
  }

  lemma TailOwner(m: Memory, base: int, l: Layout, c: int, bytes: int)
    requires Valid(m, base, l) && c in l.ring && c != base
    requires bytes % HEADER == 0 && 0 <= c < |m| && 0 < bytes < m[c].size
    ensures Tail(m, c, bytes) in l.owner && l.owner[Tail(m, c, bytes)] == c && c !in l.live
  {
    assert Within(m, c, Tail(m, c, bytes));
  }

  lemma TailUntouched(m: Memory, base: int, l: Layout, c: int, bytes: int, m': Memory)
    requires Valid(m, base, l) && c in l.ring && c != base && |m'| == |m|
    requires bytes % HEADER == 0 && 0 <= c < |m| && 0 < bytes < m[c].size
    requires forall k :: 0 <= k < |m| && k != c && k != Tail(m, c, bytes) ==> m'[k] == m[k]
    ensures Untouched(m, m', l.owner, l.live)
    ensures Tail(m, c, bytes) in l.owner && l.owner[Tail(m, c, bytes)] == c && c !in l.live
  {
    ListedNotLive(m, base, l, c);
    TailOwner(m, base, l, c, bytes);
    WritesUntouched(m, m', base, l, l.live, c, Tail(m, c, bytes));
  }

  lemma LiveElsewhere(m: Memory, base: int, l: Layout, c: int, t: int)
    requires Valid(m, base, l) && c in l.ring && t !in l.blocks
    ensures t !in l.live && forall h :: h in l.live ==> 0 <= h < |m| && h != c && h != t
  {
  }

  lemma SplitCoalesced(m: Memory, base: int, l: Layout, c: int, bytes: int, t: int, m': Memory)
    requires Linked(m, l.ring) && Coalesced(m, base, l) && c in l.ring && t !in l.ring
    requires |m'| == |m| && c + m'[c].size / HEADER == t
    requires forall k :: 0 <= k < |m| && k != c && k != t ==> m'[k] == m[k]
    ensures Coalesced(m', base, Split(l, t, bytes))
  {
    SplitTouches(m, l.ring, c, t, m');
  }

  lemma CarveTail(m: Memory, base: int, was: Layout, i: int, bytes: int, m': Memory)
    requires Valid(m, base, was)
    requires 0 <= i < |was.ring| && Next(was.ring, i) != base
    requires bytes % HEADER == 0 && 0 < bytes < m[Next(was.ring, i)].size
    requires var c := Next(was.ring, i);
             var t := Tail(m, c, bytes);
             |m'| == |m| && t < |m| && m'[c] == m[c].(size := m[c].size - bytes) && m'[t] == m[t].(size := bytes)
             && forall k :: 0 <= k < |m| && k != c && k != t ==> m'[k] == m[k]
    ensures var c := Next(was.ring, i);
            var t := Tail(m, c, bytes);
            var now := Split(was.(ring := Rotate(was.ring, i)), t, bytes);
            now.ring[0] == was.ring[i] && Carved(m, base, was, c, bytes, t, m', now)
  {
    var c, l := Next(was.ring, i), was.(ring := Rotate(was.ring, i));
    var t := Tail(m, c, bytes);
    RotateValid(m, base, was, i);
    assert c in l.ring && c in was.ring;
    TailUntouched(m, base, was, c, bytes, m');
    SplitValid(m, base, l, c, bytes, t, m');
    LiveElsewhere(m, base, l, c, t);
    assert Linked(m, l.ring);
    hide Valid, Linked, Untouched, Coalesced, Rotate, SplitOwner;
    if Coalesced(m, base, was) {
      RotateCoalesced(m, base, was, i);
      SplitCoalesced(m, base, l, c, bytes, t, m');
    }
  }

  // ----- first fit -----

  /** The `k`th header met when the walk starts behind `ring[0]` and ends on it. */
  function Met(ring: seq<int>, k: int): int
    requires 0 < k <= |ring|
  {
    if k < |ring| then ring[k] else ring[0]
  }

  /** Header `h` has room for `bytes`. */
  predicate Fits(m: Memory, h: int, bytes: int) {
    0 <= h < |m| && m[h].size >= bytes
  }

  /** Position of the first block met that has room, or past the last one. */
  ghost function FirstFit(m: Memory, ring: seq<int>, bytes: int, k: int): (r: int)
    requires 0 < k <= |ring| + 1
    ensures k <= r <= |ring| + 1
    ensures r <= |ring| ==> Fits(m, Met(ring, r), bytes)
    ensures forall j :: k <= j < r ==> !Fits(m, Met(ring, j), bytes)
    decreases |ring| - k
  {
    if k > |ring| || Fits(m, Met(ring, k), bytes) then k else FirstFit(m, ring, bytes, k + 1)
  }

  /** What the walk reads at entry `i` of a valid heap. */
  lemma RingEntry(m: Memory, base: int, l: Layout, i: int)
    requires Valid(m, base, l) && 0 <= i < |l.ring|
    ensures 0 <= l.ring[i] < |m| && 0 <= Next(l.ring, i) < |m|
    ensures m[l.ring[i]].next == Next(l.ring, i) == Met(l.ring, i + 1)
    ensures Next(l.ring, i) == l.ring[0] <==> i + 1 == |l.ring|
    ensures m[Next(l.ring, i)].size > 0 ==> Next(l.ring, i) != base
    ensures l.ring[i] !in l.live && Next(l.ring, i) !in l.live
    ensures Next(l.ring, i) in l.ring
  {
  }

  // ----- giving a block back -----

  /** `h` is free again: it left the live blocks, every other live block is untouched and keeps
      its units, the pages are the same, and a coalesced free list stays coalesced. */
  ghost predicate Freed(m: Memory, base: int, was: Layout, h: int, m': Memory, now: Layout) {
    && Valid(m', base, now)
    && |m'| == |m|
    && now.live == was.live - {h}
    && now.pages == was.pages && now.owner.Keys == was.owner.Keys
    && (forall u :: u in was.owner && was.owner[u] in now.live ==> now.owner[u] == was.owner[u])
    && (forall u :: u in was.owner && was.owner[u] == h ==> now.owner[u] !in now.live)
    && (forall k :: k in now.live ==> 0 <= k < |m| && m'[k] == m[k])
    && Untouched(m, m', was.owner, now.live)
    && (Coalesced(m, base, was) ==> Coalesced(m', base, now))
  }

  function LinkMem(m: Memory, node: int, h: int): Memory
    requires 0 <= node < |m| && 0 <= h < |m|
  {
    m[h := m[h].(next := m[node].next)][node := m[node].(next := h)]
  }

  function MergeMem(m: Memory, a: int, b: int): Memory
    requires 0 <= a < |m| && 0 <= b < |m|
  {
    m[a := Header(m[b].next, m[a].size + m[b].size)]
  }

  lemma FreeLink(m: Memory, base: int, was: Layout, i: int, h: int)
    requires Valid(m, base, was) && h in was.live
    requires 0 <= i < |was.ring| && Accepts(was.ring[i], Next(was.ring, i), h)
    ensures 0 <= h < |m| && base < h && 0 <= was.ring[i] < |m| && m[h].size >= HEADER
    ensures var l := was.(ring := Rotate(was.ring, i));
            var m1, l1 := LinkMem(m, was.ring[i], h), Link(l, h);
            && Valid(m1, base, l1)
            && l1.ring[0] == was.ring[i] && l1.ring[1] == h && Next(l1.ring, 1) == Next(was.ring, i)
            && (Coalesced(m, base, was) ==>
                  Ascending(l1.ring, base)
                  && TouchOnly(m1, l1.ring, {(was.ring[i], h), (h, Next(was.ring, i))}))
  {
    var node := was.ring[i];
    var l := was.(ring := Rotate(was.ring, i));
    BlockOwnsHeader(m, was.blocks, was.owner, h);
    RotateValid(m, base, was, i);
    var m1 := LinkMem(m, node, h);
    assert l.ring[0] == node && Next(l.ring, 0) == Next(was.ring, i);
    RingEntry(m, base, l, 0);
    assert h != node;
    LinkValid(m, base, l, h, m1);
    if Coalesced(m, base, was) {
      RotateCoalesced(m, base, was, i);
      LinkAscending(l.ring, base, h);
      LinkTouches(m, base, l, h, m1);
    }
  }

  /** One merging step of `free`: taken exactly when entry `i` touches its successor. */
  lemma FreeMerge(m: Memory, base: int, l: Layout, i: int, pairs: set<(int, int)>)
    requires Valid(m, base, l) && 0 <= i && i + 1 < |l.ring|
    requires l.ring[i] + m[l.ring[i]].size / HEADER == l.ring[i + 1]
    requires forall e :: e in pairs ==> e.0 != l.ring[i + 1]
    ensures l.ring[i] != base && l.ring[i + 1] != base
    ensures Valid(MergeMem(m, l.ring[i], l.ring[i + 1]), base, Merge(l, i))
    ensures Ascending(l.ring, base) ==> Ascending(Merge(l, i).ring, base)
    ensures TouchOnly(m, l.ring, pairs + {(l.ring[i], l.ring[i + 1])})
            ==> TouchOnly(MergeMem(m, l.ring[i], l.ring[i + 1]), Merge(l, i).ring, pairs)
  {
    SizesPositive(m, base, l, l.ring[i]);
    SizesPositive(m, base, l, l.ring[i + 1]);
    var m' := MergeMem(m, l.ring[i], l.ring[i + 1]);
    MergeValid(m, base, l, i, m');
    if Ascending(l.ring, base) { UnlinkAscending(l.ring, base, i); }
    if TouchOnly(m, l.ring, pairs + {(l.ring[i], l.ring[i + 1])}) {
      MergeTouches(m, base, l, i, m', pairs);
    }
  }

  /** Absorb or link the upper neighbour into the returned block. */
  function JoinUpper(m: Memory, node: int, h: int): Memory
    requires 0 <= node < |m| && 0 <= h < |m| && 0 <= m[node].next < |m|
  {
    var nxt := m[node].next;
    if h + m[h].size / HEADER == nxt then m[h := Header(m[nxt].next, m[h].size + m[nxt].size)]
    else m[h := m[h].(next := nxt)]
  }

  /** Absorb the returned block into the lower neighbour or link it there. */
  function JoinLower(m: Memory, node: int, h: int): Memory
    requires 0 <= node < |m| && 0 <= h < |m|
  {
    if node + m[node].size / HEADER == h then m[node := Header(m[h].next, m[node].size + m[h].size)]
    else m[node := m[node].(next := h)]
  }

  lemma UpperIsThird(m: Memory, base: int, l: Layout, h: int)
    requires Valid(m, base, l) && |l.ring| > 1 && l.ring[1] == h && base < h
    requires Next(l.ring, 1) > h
    ensures |l.ring| > 2 && l.ring[2] == Next(l.ring, 1)
  {
  }

  lemma LiveInRange(m: Memory, base: int, l: Layout)
    requires Valid(m, base, l)
    ensures forall k :: k in l.live ==> 0 <= k < |m|
  {
  }

  lemma LiveNotListed(m: Memory, base: int, l: Layout, h: int)
    requires Valid(m, base, l) && h in l.live
    ensures h !in l.ring && 0 < |l.ring| && h in l.owner
  {
    BlockOwnsHeader(m, l.blocks, l.owner, h);
  }

  lemma UpperCells(m: Memory, node: int, h: int, m': Memory)
    requires 0 <= node < |m| && 0 <= h < |m| && 0 <= m[node].next < |m|
    requires |m'| == |m|
    requires m'[h] == if h + m[h].size / HEADER == m[node].next
                      then Header(m[m[node].next].next, m[h].size + m[m[node].next].size)
                      else m[h].(next := m[node].next)
    requires forall k :: 0 <= k < |m| && k != h ==> m'[k] == m[k]
    ensures m' == JoinUpper(m, node, h)
  {
  }

  lemma LowerCells(m: Memory, node: int, h: int, m': Memory)
    requires 0 <= node < |m| && 0 <= h < |m|
    requires |m'| == |m|
    requires m'[node] == if node + m[node].size / HEADER == h
                         then Header(m[h].next, m[node].size + m[h].size)
                         else m[node].(next := h)
    requires forall k :: 0 <= k < |m| && k != node ==> m'[k] == m[k]
    ensures m' == JoinLower(m, node, h)
  {
  }

  /** The block is linked behind the first listed header that accepts it, and is one with its neighbours in the list
      when they touch it. */
  ghost predicate JoinedAt(m: Memory, ring: seq<int>, h: int, node: int, m': Memory) {
    exists i {:trigger ring[i]} ::
      && 0 <= i < |ring| && ring[i] == node && Accepts(node, Next(ring, i), h)
      && (forall j :: 0 <= j < i ==> !Accepts(ring[j], Next(ring, j), h))
      && JoinedCells(m, node, Next(ring, i), h, m')
  }

  ghost predicate JoinedCells(m: Memory, node: int, next: int, h: int, m': Memory) {
    && 0 <= node < |m| && 0 <= next < |m| && 0 <= h < |m| && |m'| == |m| && node != h
    && (var upper, lower := h + m[h].size / HEADER == next, node + m[node].size / HEADER == h;
        var size := m[h].size + if upper then m[next].size else 0;
        var link := if upper then m[next].next else next;
        && m'[h] == Header(link, size)
        && m'[node] == (if lower then Header(link, m[node].size + size) else Header(h, m[node].size)))
    && forall k :: 0 <= k < |m| && k != h && k != node ==> m'[k] == m[k]
  }

  lemma JoinsCells(m: Memory, l: Layout, i: int, h: int, m': Memory)
    requires 0 <= i < |l.ring| && 0 <= l.ring[i] < |m| && 0 <= Next(l.ring, i) < |m| && 0 <= h < |m| && l.ring[i] != h
    requires m[l.ring[i]].next == Next(l.ring, i) && Accepts(l.ring[i], Next(l.ring, i), h)
    requires forall j :: 0 <= j < i ==> !Accepts(l.ring[j], Next(l.ring, j), h)
    requires m' == JoinLower(JoinUpper(m, l.ring[i], h), l.ring[i], h)
    ensures JoinedAt(m, l.ring, h, l.ring[i], m')
  {
    assert JoinedCells(m, l.ring[i], Next(l.ring, i), h, m');
  }

  lemma NoTouch(m: Memory, ring: seq<int>, a: int, b: int, pairs: set<(int, int)>)
    requires TouchOnly(m, ring, pairs + {(a, b)}) && !Touch(m, a, b)
    ensures TouchOnly(m, ring, pairs)
  {
  }

  lemma AllApart(m: Memory, ring: seq<int>)
    requires TouchOnly(m, ring, {})
    ensures Apart(m, ring)
  {
  }

  /** The first step agrees with linking and then merging upwards. */
  lemma FreeUpper(m: Memory, base: int, was: Layout, i: int, h: int) returns (m2: Memory, l2: Layout)
    requires Valid(m, base, was) && h in was.live
    requires 0 <= i < |was.ring| && Accepts(was.ring[i], Next(was.ring, i), h)
    ensures var node := was.ring[i];
            && 0 <= h < |m| && 0 <= node < |m| && 0 <= m[node].next < |m| && h != node
            && m2 == JoinUpper(m, node, h)[node := m[node].(next := h)]
            && Valid(m2, base, l2) && |l2.ring| > 1 && l2.ring[0] == node && l2.ring[1] == h
            && l2.live == was.live - {h} && l2.pages == was.pages && l2.owner.Keys == was.owner.Keys
            && (forall u :: u in was.owner ==>
                  l2.owner[u] == if was.owner[u] == m[node].next && h + m[h].size / HEADER == m[node].next
                                 then h else was.owner[u])
            && (h + m[h].size / HEADER == m[node].next ==> m[node].next !in was.live)
            && (Coalesced(m, base, was) ==> Ascending(l2.ring, base) && TouchOnly(m2, l2.ring, {} + {(node, h)}))
  {
    hide Valid, TouchOnly, Ascending, Coalesced, Accepts;
    var node := was.ring[i];
    RingEntry(m, base, was, i);
    FreeLink(m, base, was, i, h);
    var nxt := m[node].next;
    m2, l2 := LinkMem(m, node, h), Link(was.(ring := Rotate(was.ring, i)), h);
    RingEntry(m2, base, l2, 1);
    if h + m[h].size / HEADER == nxt {
      UpperIsThird(m2, base, l2, h);
      assert {(node, h), (h, nxt)} == {(node, h)} + {(h, nxt)};
      FreeMerge(m2, base, l2, 1, {(node, h)});
      m2, l2 := MergeMem(m2, h, nxt), Merge(l2, 1);
    } else if Coalesced(m, base, was) {
      assert {(node, h), (h, nxt)} == {(node, h)} + {(h, nxt)};
      NoTouch(m2, l2.ring, h, nxt, {(node, h)});
    }
    assert {(node, h)} == {} + {(node, h)};
  }

  lemma FreeResult(m: Memory, base: int, was: Layout, i: int, h: int) returns (m': Memory, now: Layout)
    requires Valid(m, base, was) && h in was.live
    requires 0 <= i < |was.ring| && Accepts(was.ring[i], Next(was.ring, i), h)
    ensures var node := was.ring[i];
            && 0 <= h < |m| && 0 <= node < |m| && 0 <= m[node].next < |m|
            && m' == JoinLower(JoinUpper(m, node, h), node, h)
            && |now.ring| > 0 && now.ring[0] == node && Freed(m, base, was, h, m', now)
    ensures Valid(m', base, now)
  {
    hide Valid, TouchOnly, Ascending, Accepts, Apart;
    var node := was.ring[i];
    RingEntry(m, base, was, i);
    LiveInRange(m, base, was);
    LiveNotListed(m, base, was, h);
    BlockOfLive(m, base, was, h);
    ListedNotLive(m, base, was, node);
    WritesUntouched(m, JoinLower(JoinUpper(m, node, h), node, h), base, was, was.live - {h}, node, h);
    hide Untouched;
    var m2, l2 := FreeUpper(m, base, was, i, h);
    var upper := JoinUpper(m, node, h);
    assert upper[node] == m[node];
    m', now := m2, l2;
    if node + m[node].size / HEADER == h {
      FreeMerge(m2, base, l2, 0, {});
      m', now := MergeMem(m2, node, h), Merge(l2, 0);
      assert m' == upper[node := Header(upper[h].next, m[node].size + upper[h].size)];
    } else if Coalesced(m, base, was) {
      NoTouch(m2, l2.ring, node, h, {});
    }
    if Coalesced(m, base, was) { AllApart(m', now.ring); }
  }
}
