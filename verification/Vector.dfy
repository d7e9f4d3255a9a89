/** stdlib/vector.hpp: range insertion into storage whose tail is not constructed. */
module Vector {

  /** A slot of the storage: raw memory, an element that was moved from, or an element. */
  datatype Cell<+T> = Raw | Moved | Built(value: T)

  function Max(a: int, b: int): (m: int)
    ensures a <= m && b <= m && (m == a || m == b)
  {
    if a > b then a else b
  }

  /** Util::constructMove: moves elements forward into raw slots. */
  method ConstructMove<T>(dst: array<Cell<T>>, to: int, src: array<Cell<T>>, begin: int, end: int) returns (next: int)
    requires 0 <= begin <= end <= src.Length && 0 <= to && to + (end - begin) <= dst.Length
    requires src == dst ==> end <= to || to + (end - begin) <= begin
    requires forall i :: begin <= i < end ==> src[i].Built?
    requires forall i :: to <= i < to + (end - begin) ==> dst[i] == Raw
    modifies dst, src
    ensures next == to + (end - begin)
    ensures forall i :: 0 <= i < dst.Length ==>
              dst[i] == if to <= i < next then old(src[i - to + begin])
                        else if src == dst && begin <= i < end then Moved else old(dst[i])
    ensures src != dst ==> forall i :: 0 <= i < src.Length ==> src[i] == if begin <= i < end then Moved else old(src[i])
  {
    next := to;
    var from := begin;
    while from != end
      invariant begin <= from <= end && next - to == from - begin
      invariant forall i :: 0 <= i < dst.Length ==>
                  dst[i] == if to <= i < next then old(src[i - to + begin])
                            else if src == dst && begin <= i < from then Moved else old(dst[i])
      invariant src != dst ==>
                  forall i :: 0 <= i < src.Length ==> src[i] == if begin <= i < from then Moved else old(src[i])
      decreases end - from
    {
      dst[next] := src[from];
      src[from] := Moved;
      next := next + 1;
      from := from + 1;
    }
  }

  /** Util::constructCopy: copies values into raw slots. */
  method ConstructCopy<T>(dst: array<Cell<T>>, to: int, values: seq<T>) returns (next: int)
    requires 0 <= to && to + |values| <= dst.Length
    requires forall i :: to <= i < to + |values| ==> dst[i] == Raw
    modifies dst
    ensures next == to + |values|
    ensures forall i :: 0 <= i < dst.Length ==> dst[i] == if to <= i < next then Built(values[i - to]) else old(dst[i])
  {
    next := to;
    var k := 0;
    while k != |values|
      invariant 0 <= k <= |values| && next == to + k
      invariant forall i :: 0 <= i < dst.Length ==>
        dst[i] == if to <= i < next then Built(values[i - to]) else old(dst[i])
      decreases |values| - k
    {
      dst[next] := Built(values[k]);
      next := next + 1;
      k := k + 1;
    }
  }

  /** Util::copy: assigns values to constructed slots. */
  method Copy<T>(dst: array<Cell<T>>, to: int, values: seq<T>) returns (next: int)
    requires 0 <= to && to + |values| <= dst.Length
    requires forall i :: to <= i < to + |values| ==> dst[i] != Raw
    modifies dst
    ensures next == to + |values|
    ensures forall i :: 0 <= i < dst.Length ==> dst[i] == if to <= i < next then Built(values[i - to]) else old(dst[i])
  {
    next := to;
    var k := 0;
    while k != |values|
      invariant 0 <= k <= |values| && next == to + k
      invariant forall i :: 0 <= i < dst.Length ==>
        dst[i] == if to <= i < next then Built(values[i - to]) else old(dst[i])
      decreases |values| - k
    {
      dst[next] := Built(values[k]);
      next := next + 1;
      k := k + 1;
    }
  }

  /** Util::moveBackwards within one buffer: the ranges may overlap, and an element is moved out of its
      slot before the slot is assigned. */
  method MoveBackwards<T>(a: array<Cell<T>>, destEnd: int, begin: int, end: int)
    requires 0 <= begin <= end <= destEnd <= a.Length
    requires forall i :: begin <= i < end ==> a[i].Built?
    requires forall i :: destEnd - (end - begin) <= i < destEnd ==> a[i] != Raw
    modifies a
    ensures forall i :: 0 <= i < a.Length ==>
              a[i] == if destEnd - (end - begin) <= i < destEnd then old(a[i - (destEnd - end)])
                      else if begin <= i < end then Moved else old(a[i])
  {
    var to, from := destEnd, end;
    while begin != from
      invariant begin <= from <= end && destEnd - to == end - from
      invariant forall i :: 0 <= i < a.Length ==>
                  a[i] == if to <= i < destEnd then old(a[i - (destEnd - end)])
                          else if from <= i < end && destEnd != end then Moved else old(a[i])
      decreases from - begin
    {
      to, from := to - 1, from - 1;
      var moved := a[from];
      a[from] := Moved;
      a[to] := moved;
    }
  }

  /** Util::destroy: ends the life of constructed elements, moved from or not. */
  method Destroy<T>(a: array<Cell<T>>, begin: int, end: int)
    requires 0 <= begin <= end <= a.Length
    requires forall i :: begin <= i < end ==> a[i] != Raw
    modifies a
    ensures forall i :: 0 <= i < a.Length ==> a[i] == if begin <= i < end then Raw else old(a[i])
  {
    var i := begin;
    while i != end
      invariant begin <= i <= end
      invariant forall k :: 0 <= k < a.Length ==> a[k] == if begin <= k < i then Raw else old(a[k])
      decreases end - i
    {
      a[i] := Raw;
      i := i + 1;
    }
  }

  /** The storage holds the first `count` cells of `was` with `values` opened in at `pos`, and raw memory behind. */
  ghost predicate Opened<T>(cells: seq<Cell<T>>, was: seq<Cell<T>>, count: int, pos: int, values: seq<T>)
    requires 0 <= pos <= count <= |was| && count + |values| <= |cells|
  {
    forall i {:trigger cells[i]} :: 0 <= i < |cells| ==>
      cells[i] == if i < pos then was[i]
                  else if i < pos + |values| then Built(values[i - pos])
                  else if i < count + |values| then was[i - |values|]
                  else Raw
  }

  /** The storage starts with `count` elements and is raw behind them. */
  ghost predicate Filled<T>(cells: seq<Cell<T>>, count: int) {
    && 0 <= count <= |cells|
    && (forall i :: 0 <= i < count ==> cells[i].Built?)
    && (forall i :: count <= i < |cells| ==> cells[i] == Raw)
  }

  ghost function Values<T>(cells: seq<Cell<T>>, count: int): seq<T>
    requires Filled(cells, count)
  {
    seq(count, i requires 0 <= i < count => cells[i].value)
  }

  lemma OpenedValues<T>(cells: seq<Cell<T>>, was: seq<Cell<T>>, count: int, pos: int, values: seq<T>)
    requires Filled(was, count) && 0 <= pos <= count && count + |values| <= |cells|
    requires Opened(cells, was, count, pos, values)
    ensures Filled(cells, count + |values|)
    ensures Values(cells, count + |values|) == Values(was, count)[..pos] + values + Values(was, count)[pos..]
  {
  }

  class Vector<T> {
    var data: array<Cell<T>>
    var size: int

    ghost predicate Valid()
      reads this, data
    {
      Filled(data[..], size)
    }

    ghost function Contents(): seq<T>
      reads this, data
      requires Valid()
    {
      Values(data[..], size)
    }

    constructor ()
      ensures Valid() && Contents() == [] && fresh(data)
    {
      data := new Cell<T>[0];
      size := 0;
    }

    /** Enough room, and more elements behind `pos` than are inserted. */
    method InsertLongTail(pos: int, values: seq<T>)
      requires Valid() && 0 <= pos <= size && 0 < |values| < size - pos && size + |values| <= data.Length
      modifies data
      ensures Opened(data[..], old(data[..]), size, pos, values)
    {
      ghost var n, was := |values|, data[..];
      var end := ConstructMove(data, size, data, size - |values|, size);
      ghost var moved := data[..];
      MoveBackwards(data, size, pos, size - |values|);
      ghost var shifted := data[..];
      end := Copy(data, pos, values);
      forall i | 0 <= i < data.Length
        ensures data[i] == if i < pos then was[i] else if i < pos + n then Built(values[i - pos])
                           else if i < size + n then was[i - n] else Raw
      {
        if pos + n <= i < size {
          assert shifted[i] == moved[i - n] == was[i - n];
        } else if !(pos <= i < pos + n) {
          assert shifted[i] == moved[i];
        }
      }
    }

    /** Enough room, and at most as many elements behind `pos` as are inserted. */
    method InsertShortTail(pos: int, values: seq<T>)
      requires Valid() && 0 <= pos <= size && size - pos <= |values| && size + |values| <= data.Length
      modifies data
      ensures Opened(data[..], old(data[..]), size, pos, values)
    {
      assert forall i :: 0 <= i < data.Length ==> data[..][i] == data[i];
      var after := size - pos;
      var lastConstructed := ConstructCopy(data, size, values[after..]);
      var end := ConstructMove(data, lastConstructed, data, pos, size);
      end := Copy(data, pos, values[..after]);
    }

    /** Not enough room: the elements move to new storage and the old one is destroyed. */
    method InsertReallocating(pos: int, values: seq<T>, newCapacity: int)
      requires Valid() && 0 <= pos <= size && size + |values| <= newCapacity
      modifies this`data, data
      ensures fresh(data) && data.Length == newCapacity
      ensures forall i :: 0 <= i < old(data).Length ==> old(data)[i] == Raw
      ensures Opened(data[..], old(data[..]), size, pos, values)
    {
      assert forall i :: 0 <= i < data.Length ==> data[..][i] == data[i];
      var newData := new Cell<T>[newCapacity](_ => Raw);
      var newEnd := ConstructMove(newData, 0, data, 0, pos);
      newEnd := ConstructCopy(newData, newEnd, values);
      newEnd := ConstructMove(newData, newEnd, data, pos, size);
      Destroy(data, 0, size);
      data := newData;
    }

    /** insert for forward iterators, `values` being what they range over. */
    method Insert(pos: int, values: seq<T>)
      requires Valid() && 0 <= pos <= size
      modifies this, data
      ensures Valid()
      ensures Contents() == old(Contents())[..pos] + values + old(Contents())[pos..]
      ensures data.Length == if old(size) + |values| <= old(data.Length) then old(data.Length)
                             else Max(old(size) + |values|, 2 * old(data.Length))
    {
      if |values| == 0 {
        return;
      }
      ghost var was := data[..];
      if data.Length - size >= |values| {
        if size - pos > |values| {
          InsertLongTail(pos, values);
        } else {
          InsertShortTail(pos, values);
        }
      } else {
        InsertReallocating(pos, values, Max(size + |values|, 2 * data.Length));
      }
      OpenedValues(data[..], was, size, pos, values);
      size := size + |values|;
    }
  }
}
