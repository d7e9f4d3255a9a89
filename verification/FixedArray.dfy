/** stdlib/array.hpp: a fixed-capacity array that shifts its elements in place. */
module FixedArray {
  class FixedArray<T(0, ==)> {
    const data: array<T>
    var size: int

    ghost predicate Valid()
      reads this
    {
      0 <= size <= data.Length
    }

    ghost function Contents(): seq<T>
      reads this, data
      requires Valid()
    {
      data[..size]
    }

    constructor (capacity: int)
      requires 0 <= capacity
      ensures Valid() && Contents() == [] && data.Length == capacity && fresh(data)
    {
      data := new T[capacity];
      size := 0;
    }

    /** Fails, changing nothing, exactly when the array is full. */
    method Insert(val: T) returns (ok: bool)
      requires Valid()
      modifies this`size, data
      ensures Valid()
      ensures ok <==> old(size) < data.Length
      ensures Contents() == if ok then old(Contents()) + [val] else old(Contents())
    {
      if size >= data.Length {
        return false;
      }
      data[size] := val;
      size := size + 1;
      ok := true;
    }

    /** Closes the gap by shifting what follows one place down. */
    method Remove(pos: int)
      requires Valid() && 0 <= pos < size
      modifies this`size, data
      ensures Valid()
      ensures Contents() == old(Contents())[..pos] + old(Contents())[pos + 1..]
    {
      ghost var was := data[..];
      var i := pos;
      while i < size - 1
        invariant pos <= i <= size - 1
        invariant size == old(size)
        invariant data[..pos] == was[..pos]
        invariant data[pos..i] == was[pos + 1..i + 1]
        invariant data[i + 1..] == was[i + 1..]
      {
        data[i] := data[i + 1];
        i := i + 1;
      }
      size := size - 1;
    }

    /** Index of the first occurrence, or the size when there is none. */
    method Find(val: T) returns (r: int)
      requires Valid()
      ensures 0 <= r <= size
      ensures r < size ==> Contents()[r] == val
      ensures val !in Contents()[..r]
    {
      r := 0;
      while r < size
        invariant 0 <= r <= size
        invariant val !in Contents()[..r]
      {
        if data[r] == val {
          return;
        }
        r := r + 1;
      }
    }
  }
}
