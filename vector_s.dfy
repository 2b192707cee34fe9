/**
  vector_storage_static of vector_s.h: the storage policy of vector_s, a
  buffer of exactly `capacity` elements embedded in the object.  It never
  reallocates: `needmakefit` asserts that the requested size fits and says no
  reallocation is needed, and `makefit1` hands back no old buffer.
*/
module VectorS {
  import opened Wrappers

  class StaticStorage<T(0)> {
    /** t_capacity */
    const capacity: nat
    /** m_data */
    const data: array<T>

    ghost predicate Valid()
      reads this
    {
      data.Length == capacity
    }

    constructor (capacity: nat)
      ensures Valid() && fresh(data) && this.capacity == capacity
    {
      this.capacity := capacity;
      data := new T[capacity];
    }

    /** capacity() and max_size() are both t_capacity: the buffer is the limit. */
    function MaxSize(): (m: nat)
      reads this
      requires Valid()
      ensures m == data.Length
    {
      capacity
    }

    /** needmakefit(newsize): asserts newsize <= t_capacity and never asks
        for a reallocation. */
    method NeedMakefit(newsize: nat) returns (r: bool)
      requires Valid() && newsize <= capacity
      ensures !r
    {
      r := false;
    }

    /** makefit1(newsize, oldsize): asserts the size fits and returns NULL,
        since there is no old buffer to free. */
    method Makefit1(newsize: nat, oldsize: nat) returns (pOld: Option<array<T>>)
      requires Valid() && newsize <= capacity
      ensures pOld == None
    {
      pOld := None;
    }

    /** swap(other, maxsize): static buffers cannot trade pointers, so the
        first `maxsize` elements are exchanged one by one. */
    method Swap(other: StaticStorage<T>, maxsize: nat)
      requires Valid() && other.Valid() && other.data != data
      requires maxsize <= capacity && maxsize <= other.capacity
      modifies data, other.data
      ensures data[..maxsize] == old(other.data[..maxsize])
      ensures other.data[..maxsize] == old(data[..maxsize])
      ensures data[maxsize..] == old(data[maxsize..])
      ensures other.data[maxsize..] == old(other.data[maxsize..])
    {
      var i := 0;
      while i < maxsize
        invariant 0 <= i <= maxsize
        invariant data[..i] == old(other.data[..i]) && other.data[..i] == old(data[..i])
        invariant data[i..] == old(data[i..]) && other.data[i..] == old(other.data[i..])
      {
        data[i], other.data[i] := other.data[i], data[i];
        i := i + 1;
      }
    }

    /** release(): nothing to free. */
    method Release()
      requires Valid()
      ensures Valid()
    {
    }
  }
}
