/** stdlib/heap.cpp: the allocator behind `new` and `delete`. */
module Heap {
  import opened HeapArena
  import opened Wrappers

  const WORD := 0x1_0000_0000

  /** Math::roundUp on 32-bit operands; the addition wraps. */
  function RoundUp(num: int, multiple: int): int
    requires multiple > 0
  {
    (num + multiple - 1) % WORD / multiple * multiple
  }

  /** Bytes carved for a request: header included, rounded to whole headers. */
  function Bytes(size: int): int {
    RoundUp((size + HEADER) % WORD, HEADER)
  }

  /** Pages asked of the page supplier when no free block is large enough. */
  function Blocks(bytes: int): int {
    RoundUp(bytes, PAGE) / PAGE
  }

  const MAX_REQUEST := WORD - PAGE - HEADER

  /** The size arithmetic serves a request exactly up to MAX_REQUEST bytes; above it a 32-bit
      sum wraps and either the carved block or the pages obtained are too small. */
  lemma RequestServed(size: int)
    requires 0 <= size < WORD
    ensures (Bytes(size) >= size + HEADER && Blocks(Bytes(size)) * PAGE >= Bytes(size)) <==> size <= MAX_REQUEST
    ensures size <= MAX_REQUEST ==>
      && Bytes(size) % HEADER == 0 && Blocks(Bytes(size)) > 0 && Bytes(size) < size + 2 * HEADER
      && Blocks(Bytes(size)) * PAGE < Bytes(size) + PAGE
  {
    if size + 2 * HEADER - 1 < WORD {
      assert Bytes(size) == (size + 31) / 16 * 16;
      if Bytes(size) + PAGE - 1 < WORD {
        assert Blocks(Bytes(size)) == (Bytes(size) + 4095) / 4096;
      } else {
        assert (Bytes(size) + 4095) % WORD < 4096;
        assert Blocks(Bytes(size)) == 0;
      }
    }
  }

  /** A request whose size wraps: 2^32 - 16 bytes become a block of no bytes at all. */
  lemma WrappedRequest()
    ensures Bytes(WORD - HEADER) == 0
  {
  }

  class Heap {
    const base: int
    var head: int
    var mem: array<Header>
    ghost var lay: Layout

    ghost predicate Valid()
      reads this, mem
    {
      && HeapArena.Valid(mem[..], base, lay)
      && lay.ring[0] == head
    }

    constructor (memory: array<Header>, sentinel: int)
      requires 0 <= sentinel < memory.Length
      modifies memory
      ensures Valid() && Coalesced(mem[..], base, lay)
      ensures mem == memory && base == sentinel
      ensures lay == Layout([sentinel], {}, {}, map[], {})
    {
      base, head, mem := sentinel, sentinel, memory;
      lay := Layout([sentinel], {}, {}, map[], {});
      new;
      mem[sentinel] := Header(sentinel, 0);
    }

    lemma NotEmpty()
      requires Valid()
      ensures |lay.ring| > 0
    {
    }

    /** Splices `supply`, the page supplier's answer, behind `head`. */
    method Expand(bytes: int, supply: Option<int>) returns (r: Option<int>)
      requires Valid()
      requires supply.Some? ==> Fresh(base, mem.Length, lay.pages, supply.value, Blocks(bytes))
      modifies this, mem
      ensures Valid() && mem == old(mem) && head == old(head)
      ensures supply.None? ==> r == None && mem[..] == old(mem[..]) && lay == old(lay)
      ensures supply.Some? ==>
                && r == Some(head) && |old(lay).ring| > 0 && 0 < Blocks(bytes)
                && Spliced(old(mem[..]), base, old(lay), supply.value, Blocks(bytes), mem[..], lay)
    {
      if supply.None? {
        return None;
      }
      var blocks := Blocks(bytes);
      var header := supply.value * PAGE_UNITS;
      ghost var m := mem[..];
      SpliceValid(m, base, lay, supply.value, blocks);
      hide Blocks, HeapArena.Valid, Grow;
      mem[header] := Header(mem[head].next, blocks * PAGE);
      mem[head] := mem[head].(next := header);
      SpliceCells(m, head, header, blocks * PAGE, mem[..]);
      lay := Grow(lay, supply.value, blocks);
      r := Some(head);
    }

    /** Takes `bytes` from the end of the free block `curr`, the successor of `prev`. */
    method Carve(prev: int, curr: int, bytes: int, ghost i: int) returns (header: int)
      requires HeapArena.Valid(mem[..], base, lay)
      requires 0 <= i < |lay.ring| && lay.ring[i] == prev && Next(lay.ring, i) == curr
      requires bytes % HEADER == 0 && 0 < bytes <= mem[curr].size
      modifies this, mem
      ensures Valid() && mem == old(mem) && head == prev
      ensures Carved(old(mem[..]), base, old(lay), curr, bytes, header, mem[..], lay)
    {
      ghost var m := mem[..];
      assert 0 <= prev < |m| && 0 <= curr < |m| && curr != base;
      if mem[curr].size == bytes {
        mem[prev] := mem[prev].(next := mem[curr].next);
        header := curr;
        CarveWhole(m, base, lay, i, mem[..]);
        lay := Take(lay.(ring := Rotate(lay.ring, i)));
      } else {
        SplitInside(m, base, lay, curr, bytes);
        mem[curr] := mem[curr].(size := mem[curr].size - bytes);
        header := curr + mem[curr].size / HEADER;
        mem[header] := mem[header].(size := bytes);
        CarveTail(m, base, lay, i, bytes, mem[..]);
        lay := Split(lay.(ring := Rotate(lay.ring, i)), header, bytes);
      }
      head := prev;
    }

    /** operator new. `supply` is the page supplier's answer, should it be asked.
        The request is cut from the first block with room behind `head`; only when there is none
        are pages obtained, and only when none are supplied does the call fail, changing nothing. */
    method Allocate(size: int, supply: Option<int>) returns (r: Option<int>)
      requires Valid()
      requires 0 <= size <= MAX_REQUEST
      requires supply.Some? ==> Fresh(base, mem.Length, lay.pages, supply.value, Blocks(Bytes(size)))
      modifies this, mem
      ensures Valid() && mem == old(mem)
      ensures mem.Length == old(mem.Length) && Bytes(size) >= size + HEADER
      ensures var m, was, bytes := old(mem[..]), old(lay), Bytes(size);
              var k := FirstFit(m, was.ring, bytes, 1);
              if k <= |was.ring| then
                && r.Some? && Carved(m, base, was, Met(was.ring, k), bytes, r.value - 1, mem[..], lay)
                && head == was.ring[k - 1]
              else if supply.None? then
                r.None? && mem[..] == m && lay == was && head == old(head)
              else
                && r.Some? && CarvedFresh(m, was, supply.value, Blocks(bytes), bytes, r.value - 1, mem[..], lay)
                && head == old(head)
    {
      hide RoundUp, Blocks, HeapArena.Valid, Grow, Carved, CutOff, CarvedFresh, Untouched, NotOwned;
      NotEmpty();
      RequestServed(size);
      var bytes := Bytes(size);
      RingEntry(mem[..], base, lay, 0);
      var prev, curr := head, mem[head].next;
      ghost var m, was := mem[..], lay;
      ghost var i := 0;
      ghost var grown := false;
      ghost var k := FirstFit(m, was.ring, bytes, 1);
      while true
        invariant Valid() && mem == old(mem) && head == old(head)
        invariant 0 <= i < |lay.ring| && lay.ring[i] == prev && Next(lay.ring, i) == curr
        invariant !grown ==> mem[..] == m && lay == was && k == FirstFit(m, was.ring, bytes, i + 1)
        invariant grown ==> supply.Some? && k > |was.ring| && i == 0
                            && curr == supply.value * PAGE_UNITS && mem[curr].size == Blocks(bytes) * PAGE
                            && lay == Grow(was, supply.value, Blocks(bytes))
                            && (forall h :: h in was.live ==> 0 <= h < mem.Length && mem[h] == m[h])
                            && Untouched(m, mem[..], was.owner, was.live)
                            && NotOwned(was.owner, supply.value * PAGE_UNITS, Blocks(bytes) * PAGE_UNITS)
        invariant 0 < |was.ring| && |m| == mem.Length
        decreases if grown then 0 else 1, |lay.ring| - i
      {
        RingEntry(mem[..], base, lay, i);
        if mem[curr].size >= bytes {
          ghost var mid := mem[..];
          var header := Carve(prev, curr, bytes, i);
          if grown {
            CarvedIsCutOff(mid, base, Grow(was, supply.value, Blocks(bytes)), curr, bytes, header, mem[..], lay);
            CarveGrown(m, was, supply.value, Blocks(bytes), mid, bytes, header, mem[..], lay);
          }
          return Some(header + 1);
        }
        if curr == head {
          var spliced := Expand(bytes, supply);
          if spliced.None? {
            return None;
          }
          grown := true;
          i := 0;
          curr := spliced.value;
        } else {
          i := i + 1;
        }
        RingEntry(mem[..], base, lay, i);
        prev := curr;
        curr := mem[curr].next;
      }
    }

    /** The search of `free`: it ends at the first edge that accepts the block, whatever the order of the ring. */
    method FindEdge(header: int) returns (node: int, ghost i: int)
      requires Valid() && header in lay.live
      ensures 0 <= i < |lay.ring| && lay.ring[i] == node && Accepts(node, Next(lay.ring, i), header)
      ensures forall j :: 0 <= j < i ==> !Accepts(lay.ring[j], Next(lay.ring, j), header)
    {
      hide HeapArena.Valid;
      node, i := head, 0;
      LiveNotListed(mem[..], base, lay, header);
      ghost var e := EdgeExists(lay.ring, header);
      RingEntry(mem[..], base, lay, i);
      while header <= node || header >= mem[node].next
        invariant 0 <= i <= e && lay.ring[i] == node
        invariant 0 <= node < mem.Length && mem[node].next == Next(lay.ring, i) && 0 <= mem[node].next < mem.Length
        invariant forall j :: 0 <= j < i ==> !Accepts(lay.ring[j], Next(lay.ring, j), header)
        decreases |lay.ring| - i
      {
        if node >= mem[node].next && (header > node || header < mem[node].next) {
          break;
        }
        node := mem[node].next;
        i := i + 1;
        RingEntry(mem[..], base, lay, i);
      }
    }

    /** The block is merged with its neighbours where it touches them, and linked to them elsewhere. */
    method Join(node: int, header: int)
      requires 0 <= node < mem.Length && 0 <= header < mem.Length && 0 <= mem[node].next < mem.Length && node != header
      modifies mem
      ensures mem[..] == JoinLower(JoinUpper(old(mem[..]), node, header), node, header)
    {
      ghost var m := mem[..];
      hide JoinUpper, JoinLower;
      var next := mem[node].next;
      if header + mem[header].size / HEADER == next {
        mem[header] := Header(mem[next].next, mem[header].size + mem[next].size);
      } else {
        mem[header] := mem[header].(next := next);
      }
      UpperCells(m, node, header, mem[..]);
      if node + mem[node].size / HEADER == header {
        mem[node] := Header(mem[header].next, mem[node].size + mem[header].size);
      } else {
        mem[node] := mem[node].(next := header);
      }
      LowerCells(JoinUpper(m, node, header), node, header, mem[..]);
    }

    /** operator delete. */
    method Free(ptr: Option<int>)
      requires Valid()
      requires ptr.Some? ==> ptr.value - 1 in lay.live
      modifies this, mem
      ensures Valid() && mem == old(mem)
      ensures ptr.None? ==> mem[..] == old(mem[..]) && lay == old(lay) && head == old(head)
      ensures ptr.Some? ==> Freed(old(mem[..]), base, old(lay), ptr.value - 1, mem[..], lay)
      ensures ptr.Some? ==> JoinedAt(old(mem[..]), old(lay).ring, ptr.value - 1, head, mem[..])
    {
      if ptr.None? {
        return;
      }
      var header := ptr.value - 1;
      ghost var m, was := mem[..], lay;
      var node, i := FindEdge(header);
      hide HeapArena.Valid, Freed, JoinUpper, JoinLower, JoinedAt, Accepts;
      LiveNotListed(m, base, lay, header);
      RingEntry(m, base, lay, i);
      ghost var m', now := FreeResult(m, base, lay, i, header);
      Join(node, header);
      JoinsCells(m, was, i, header, mem[..]);
      lay := now;
      head := node;
    }
  }
}
