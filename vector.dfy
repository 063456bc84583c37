/**
 * Gamebox's growable vector: `length` elements in use out of a data array
 * of `allocation` slots.  The element span of the C code is the element
 * type here; `data.Length` is the allocation.  Growth doubles the
 * allocation, starting from 1, until it covers the requested length;
 * shrinking never gives memory back.
 */
module Vectors {

  predicate IsPowerOfTwo(n: nat)
    decreases n
  {
    n == 1 || (n >= 2 && n % 2 == 0 && IsPowerOfTwo(n / 2))
  }

  /** The loop in `vector_extend` doubles a power of two. */
  lemma DoubleIsPowerOfTwo(n: nat)
    requires IsPowerOfTwo(n)
    ensures IsPowerOfTwo(2 * n)
  {
    assert (2 * n) / 2 == n;
  }

  class Vector<T(0)> {
    var data: array<T>
    var length: nat

    ghost predicate Valid()
      reads this
    {
      length <= data.Length && (data.Length == 0 || IsPowerOfTwo(data.Length))
    }

    /** The elements in use. */
    function Contents(): seq<T>
      reads this, data
      requires Valid()
    {
      data[..length]
    }

    /** `vector_create`: no elements and no allocation. */
    constructor ()
      ensures Valid() && fresh(data)
      ensures Contents() == [] && data.Length == 0
    {
      data := new T[0];
      length := 0;
    }

    /**
     * `vector_extend`: make the length `elements` if that is longer,
     * doubling the allocation (from 1 when it is 0) until it is at least
     * `elements`.  Elements already in use keep their values.
     */
    method Extend(elements: nat)
      requires Valid() && elements > 0
      modifies this, data
      ensures Valid()
      ensures length == if elements <= old(length) then old(length) else elements
      ensures elements <= old(length) ==> data == old(data) && data[..] == old(data[..])
      ensures old(data.Length) >= elements ==> data == old(data)
      ensures old(data.Length) < elements ==> fresh(data) && data.Length >= elements && data.Length / 2 < elements
      ensures forall j :: 0 <= j < old(length) ==> data[j] == old(data[j])
      ensures data == old(data) ==> data[..] == old(data[..])
      ensures data == old(data) || fresh(data)
    {
      if elements <= length {
        return;
      }
      var allocation := data.Length;
      while allocation < elements
        modifies {}
        invariant allocation >= data.Length
        invariant data.Length >= elements ==> allocation == data.Length
        invariant allocation == 0 || IsPowerOfTwo(allocation)
        invariant allocation > data.Length ==> allocation / 2 < elements
        decreases elements - allocation
      {
        if allocation == 0 {
          allocation := 1;
        } else {
          DoubleIsPowerOfTwo(allocation);
          allocation := allocation * 2;
        }
      }
      if allocation > data.Length {
        var grown := new T[allocation];
        var k := 0;
        while k < data.Length
          modifies grown
          invariant 0 <= k <= data.Length
          invariant forall j :: 0 <= j < k ==> grown[j] == data[j]
        {
          grown[k] := data[k];
          k := k + 1;
        }
        data := grown;
      }
      length := elements;
    }

    /** `vector_expunge`: remove element `i`, moving the later ones down by one. */
    method Expunge(i: nat)
      requires Valid() && i < length
      modifies this, data
      ensures Valid() && data == old(data)
      ensures Contents() == old(Contents()[..i] + Contents()[i + 1..])
    {
      var newLength := length - 1;
      var k := i;
      while k < newLength
        modifies data
        invariant i <= k <= newLength
        invariant forall j :: 0 <= j < i ==> data[j] == old(data[j])
        invariant forall j :: i <= j < k ==> data[j] == old(data[j + 1])
        invariant forall j :: k <= j < data.Length ==> data[j] == old(data[j])
      {
        data[k] := data[k + 1];
        k := k + 1;
      }
      length := newLength;
      assert Contents() == old(Contents()[..i] + Contents()[i + 1..]) by {
        forall j | 0 <= j < newLength
          ensures Contents()[j] == old(Contents()[..i] + Contents()[i + 1..])[j]
        {
          if j >= i { assert old(Contents()[i + 1..])[j - i] == old(data[j + 1]); }
        }
      }
    }

    /** `vector_get` / `vector_get_address`: the index must be in use. */
    method Get(i: nat) returns (x: T)
      requires Valid() && i < length
      ensures x == Contents()[i]
    {
      x := data[i];
    }

    /**
     * `vector_set`: store `x` at `i`, first extending the length to `i + 1`
     * if it is shorter.  Other elements in use keep their values; slots
     * between the old length and `i` hold whatever the array held before.
     */
    method Set(i: nat, x: T)
      requires Valid()
      modifies this, data
      ensures Valid()
      ensures length == if i < old(length) then old(length) else i + 1
      ensures Contents()[i] == x
      ensures forall j :: 0 <= j < old(length) && j != i ==> Contents()[j] == old(Contents())[j]
      ensures old(data.Length) > i ==> data == old(data)
      ensures old(data.Length) <= i ==> data.Length / 2 <= i
      ensures data == old(data) || fresh(data)
    {
      Extend(i + 1);
      data[i] := x;
    }

    /** `vector_delete` */
    method Delete(i: nat)
      requires Valid() && i < length
      modifies this, data
      ensures Valid() && data == old(data)
      ensures Contents() == old(Contents()[..i] + Contents()[i + 1..])
    {
      Expunge(i);
    }

    /** `vector_get_length` */
    method GetLength() returns (n: nat)
      requires Valid()
      ensures n == |Contents()|
    {
      n := length;
    }

    /** `vector_clear`: no elements in use; the allocation and its data stay. */
    method Clear()
      requires Valid()
      modifies this
      ensures Valid() && Contents() == []
      ensures data == old(data) && data[..] == old(data[..])
    {
      length := 0;
    }

    /** `vector_append`: add `x` at the end and return its index, the old length. */
    method Append(x: T) returns (index: nat)
      requires Valid()
      modifies this, data
      ensures Valid()
      ensures index == old(length) && Contents() == old(Contents()) + [x]
      ensures data == old(data) || fresh(data)
    {
      Set(length, x);
      index := length - 1;
    }

    /** `vector_remove`: pop the last element. */
    method Remove() returns (x: T)
      requires Valid() && length > 0
      modifies this, data
      ensures Valid() && data == old(data)
      ensures x == old(Contents())[old(length) - 1]
      ensures Contents() == old(Contents())[..old(length) - 1]
    {
      x := Get(length - 1);
      Expunge(length - 1);
    }

    /** `vector_unqueue`: pop the first element. */
    method Unqueue() returns (x: T)
      requires Valid() && length > 0
      modifies this, data
      ensures Valid() && data == old(data)
      ensures x == old(Contents())[0]
      ensures Contents() == old(Contents())[1..]
    {
      x := Get(0);
      Expunge(0);
    }
  }

  /** A vector used as a stack: what `Remove` pops is what `Append` pushed. */
  method AppendThenRemove<T(0)>(v: Vector<T>, x: T) returns (y: T)
    requires v.Valid()
    modifies v, v.data
    ensures v.Valid() && y == x && v.Contents() == old(v.Contents())
  {
    var i := v.Append(x);
    y := v.Remove();
  }
}
