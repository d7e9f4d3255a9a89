/** stdlib/bitset.hpp: a set of small numbers packed into 32-bit words. */
module Bitset {
  import opened Wrappers

  const BITS_PER_UNIT := 32

  function Shifted(a: bv5): bv32 {
    (1 as bv32) << (a as bv32)
  }

  /** The word 1 << k. */
  function Mask(k: int): bv32
    requires 0 <= k < BITS_PER_UNIT
  {
    Shifted(k as bv5)
  }

  lemma ShiftedApart(a: bv5, b: bv5)
    ensures Shifted(a) != 0 && (a != b ==> Shifted(a) & Shifted(b) == 0)
  {
  }

  lemma NarrowInjective(j: int, k: int)
    requires 0 <= j < BITS_PER_UNIT && 0 <= k < BITS_PER_UNIT && j != k
    ensures (j as bv5) != (k as bv5)
  {
    assert (j as bv5) as int == j;
    assert (k as bv5) as int == k;
  }

  lemma MasksApart(j: int, k: int)
    requires 0 <= j < BITS_PER_UNIT && 0 <= k < BITS_PER_UNIT
    ensures Mask(j) != 0 && (j != k ==> Mask(j) & Mask(k) == 0)
  {
    hide Shifted;
    if j != k { NarrowInjective(j, k); }
    ShiftedApart(j as bv5, k as bv5);
  }

  function With(x: bv32, m: bv32): bv32 {
    x | m
  }

  function Less(x: bv32, m: bv32): bv32 {
    x & !m
  }

  predicate Meets(x: bv32, m: bv32) {
    x & m != 0
  }

  lemma OtherBits(x: bv32, m: bv32, n: bv32)
    requires m & n == 0
    ensures (Meets(With(x, m), n) <==> Meets(x, n)) && (Meets(Less(x, m), n) <==> Meets(x, n))
  {
    OtherWord(x, m, n);
  }

  lemma OtherWord(x: bv32, m: bv32, n: bv32)
    requires m & n == 0
    ensures (x | m) & n == x & n && (x & !m) & n == x & n
  {
  }

  lemma OwnBit(x: bv32, m: bv32)
    requires m != 0
    ensures Meets(With(x, m), m) && !Meets(Less(x, m), m)
  {
    OwnWord(x, m);
  }

  lemma OwnWord(x: bv32, m: bv32)
    ensures (x | m) & m == m && (x & !m) & m == 0
  {
  }

  lemma WordBit(x: bv32, k: int, c: int)
    requires 0 <= k < BITS_PER_UNIT && 0 <= c < BITS_PER_UNIT
    ensures Meets(With(x, Mask(k)), Mask(c)) <==> c == k || Meets(x, Mask(c))
    ensures Meets(Less(x, Mask(k)), Mask(c)) <==> c != k && Meets(x, Mask(c))
  {
    hide With, Less, Meets, Mask;
    MasksApart(k, c);
    if c == k {
      OwnBit(x, Mask(k));
    } else {
      OtherBits(x, Mask(k), Mask(c));
    }
  }

  /** Bit `b` of the packed words. */
  predicate On(words: seq<bv32>, b: int)
    requires 0 <= b < |words| * BITS_PER_UNIT
  {
    Meets(words[b / BITS_PER_UNIT], Mask(b % BITS_PER_UNIT))
  }

  /** Setting or clearing one bit of one word changes that bit of the set and no other. */
  lemma WriteBit(words: seq<bv32>, b: int, on: bool, words': seq<bv32>)
    requires 0 <= b < |words| * BITS_PER_UNIT
    requires var u, m := b / BITS_PER_UNIT, Mask(b % BITS_PER_UNIT);
             words' == words[u := if on then With(words[u], m) else Less(words[u], m)]
    ensures forall c :: 0 <= c < |words| * BITS_PER_UNIT ==> (On(words', c) <==> if c == b then on else On(words, c))
  {
    hide With, Less, Meets, Mask;
    var u, k := b / BITS_PER_UNIT, b % BITS_PER_UNIT;
    forall c | 0 <= c < |words| * BITS_PER_UNIT ensures On(words', c) <==> if c == b then on else On(words, c) {
      if c / BITS_PER_UNIT == u {
        WordBit(words[u], k, c % BITS_PER_UNIT);
      }
    }
  }

  class Bitset {
    const arr: array<bv32>

    ghost predicate Has(b: int)
      reads arr
    {
      0 <= b < Size() && On(arr[..], b)
    }

    function Size(): int {
      arr.Length * BITS_PER_UNIT
    }

    constructor (size: int)
      requires 0 < size
      ensures fresh(arr) && size <= Size() < size + BITS_PER_UNIT
      ensures forall b :: !Has(b)
    {
      arr := new bv32[(size - 1) / BITS_PER_UNIT + 1](_ => 0);
    }

    /** Fails, as a failed assertion does, when the range does not fit. */
    method Set(index: int, bits: int) returns (ok: bool)
      requires 0 <= index && 0 <= bits
      modifies arr
      ensures ok <==> index + bits <= Size()
      ensures forall b :: Has(b) <==> old(Has(b)) || (ok && index <= b < index + bits)
    {
      hide With, Less, Meets, Mask;
      if index + bits > Size() {
        return false;
      }
      ok := true;
      ghost var was := arr[..];
      var bit := index;
      while bit < index + bits
        invariant index <= bit <= index + bits
        invariant forall b :: 0 <= b < Size() ==> (On(arr[..], b) <==> On(was, b) || index <= b < bit)
      {
        ghost var words := arr[..];
        arr[bit / BITS_PER_UNIT] := With(arr[bit / BITS_PER_UNIT], Mask(bit % BITS_PER_UNIT));
        WriteBit(words, bit, true, arr[..]);
        bit := bit + 1;
      }
    }

    method Clear(index: int, bits: int) returns (ok: bool)
      requires 0 <= index && 0 <= bits
      modifies arr
      ensures ok <==> index + bits <= Size()
      ensures forall b :: Has(b) <==> old(Has(b)) && !(ok && index <= b < index + bits)
    {
      hide With, Less, Meets, Mask;
      if index + bits > Size() {
        return false;
      }
      ok := true;
      ghost var was := arr[..];
      var bit := index;
      while bit < index + bits
        invariant index <= bit <= index + bits
        invariant forall b :: 0 <= b < Size() ==> (On(arr[..], b) <==> On(was, b) && !(index <= b < bit))
      {
        ghost var words := arr[..];
        arr[bit / BITS_PER_UNIT] := Less(arr[bit / BITS_PER_UNIT], Mask(bit % BITS_PER_UNIT));
        WriteBit(words, bit, false, arr[..]);
        bit := bit + 1;
      }
    }

    /** All `bits` numbers from `index` on are out of the set. */
    ghost predicate AllClear(index: int, bits: int)
      reads arr
    {
      forall b :: index <= b < index + bits ==> !Has(b)
    }

    /** All of them are in the set, or all out of it. */
    ghost predicate AllAre(index: int, bits: int, expected: bool)
      reads arr
    {
      forall b :: index <= b < index + bits ==> Has(b) == expected
    }

    lemma ClearAre(index: int, bits: int)
      ensures AllClear(index, bits) <==> AllAre(index, bits, false)
    {
      if AllAre(index, bits, false) {
        forall b | index <= b < index + bits ensures !Has(b) {
          assert Has(b) == false;
        }
      }
    }

    /** Whether the bits of the range are all as expected; a range touching the last number fails the
        assertion. */
    method Test(index: int, bits: int, expected: bool) returns (r: Result<bool>)
      requires 0 <= index && 0 <= bits
      ensures r.Ok? <==> index + bits < Size()
      ensures r.Ok? ==> r.value == AllAre(index, bits, expected)
    {
      hide With, Less, Meets, Mask;
      if index + bits >= Size() {
        return Aborted;
      }
      var bit := index;
      while bit < index + bits
        invariant index <= bit <= index + bits
        invariant forall b :: index <= b < bit ==> Has(b) == expected
      {
        var value := Meets(arr[bit / BITS_PER_UNIT], Mask(bit % BITS_PER_UNIT));
        assert value == Has(bit);
        if value != expected {
          return Ok(false);
        }
        bit := bit + 1;
      }
      return Ok(true);
    }

    /** The least start below size - bits of a clear run; the run ending with the last number is
        not considered. Aborted is the failed assertion for more bits than there are. */
    method FindFree(bits: int) returns (r: Result<Option<int>>)
      requires 0 <= bits
      ensures r.Ok? <==> bits <= Size()
      ensures r.Ok? && r.value.Some? ==>
                0 <= r.value.value < Size() - bits && AllClear(r.value.value, bits)
                && forall i :: 0 <= i < r.value.value ==> !AllClear(i, bits)
      ensures r.Ok? && r.value.None? ==> forall i :: 0 <= i < Size() - bits ==> !AllClear(i, bits)
    {
      if bits > Size() {
        return Aborted;
      }
      var index := 0;
      while index < Size() - bits
        invariant 0 <= index <= Size() - bits
        invariant forall i :: 0 <= i < index ==> !AllClear(i, bits)
      {
        var free := Test(index, bits, false);
        ClearAre(index, bits);
        if free == Ok(true) {
          return Ok(Some(index));
        }
        index := index + 1;
      }
      return Ok(None);
    }
  }
}
