/**
  vector_flex of vector_flex.h: a vector whose elements live in a storage
  buffer owned by a storage policy.  `data` is the buffer (its length is the
  capacity) and `size` the number of live elements, which are `data[..size]`.

  The storage policy is a flag: with `fixedStorage` (vector_storage_static,
  used by vector_s) the buffer never moves and every growth must fit in it;
  otherwise (vector_storage of vector.h) a growth that does not fit moves the
  live elements to a larger buffer.  Element construction and destruction are
  not modelled: an element is a value, a default-constructed one is passed in
  as `def`.
*/
module VectorFlex {

  // ---- the specification of the sequence operations ----

  /** The contents after inserting `e` at index `n`. */
  function Inserted<T>(s: seq<T>, n: nat, e: T): (r: seq<T>)
    requires n <= |s|
    ensures |r| == |s| + 1 && r[n] == e
    ensures forall k :: 0 <= k < n ==> r[k] == s[k]
    ensures forall k :: n < k < |r| ==> r[k] == s[k - 1]
  {
    s[..n] + [e] + s[n..]
  }

  /** The contents after erasing the range [first, last). */
  function ErasedRange<T>(s: seq<T>, first: nat, last: nat): (r: seq<T>)
    requires first <= last <= |s|
    ensures |r| == |s| - (last - first)
    ensures forall k :: 0 <= k < first ==> r[k] == s[k]
    ensures forall k :: first <= k < |r| ==> r[k] == s[k + (last - first)]
  {
    s[..first] + s[last..]
  }

  /** Erasing what was just inserted gives the old contents back. */
  lemma EraseUndoesInsert<T>(s: seq<T>, n: nat, e: T)
    requires n <= |s|
    ensures ErasedRange(Inserted(s, n, e), n, n + 1) == s
  {
    var r := ErasedRange(Inserted(s, n, e), n, n + 1);
    assert forall k :: 0 <= k < |s| ==> r[k] == s[k];
  }

  /** Inserting an element that was just erased, where it was, gives the old
      contents back. */
  lemma InsertUndoesErase<T>(s: seq<T>, n: nat)
    requires n < |s|
    ensures Inserted(ErasedRange(s, n, n + 1), n, s[n]) == s
  {
    var r := Inserted(ErasedRange(s, n, n + 1), n, s[n]);
    assert forall k :: 0 <= k < |s| ==> r[k] == s[k];
  }

  /** Insertion adds exactly one element and erasure removes exactly the range. */
  lemma InsertedMultiset<T>(s: seq<T>, n: nat, e: T)
    requires n <= |s|
    ensures multiset(Inserted(s, n, e)) == multiset(s) + multiset{e}
  {
    assert s == s[..n] + s[n..];
  }

  lemma ErasedRangeMultiset<T>(s: seq<T>, first: nat, last: nat)
    requires first <= last <= |s|
    ensures multiset(ErasedRange(s, first, last)) + multiset(s[first..last]) == multiset(s)
  {
    assert s == s[..first] + s[first..last] + s[last..];
  }

  /** The position `find` reports: the first element equal to `what`, or `|s|`. */
  function FirstIndexOf<T(==)>(s: seq<T>, what: T): (k: nat)
    ensures k <= |s|
    ensures k < |s| ==> s[k] == what
    ensures forall j :: 0 <= j < k ==> s[j] != what
  {
    if s == [] then 0
    else if s[0] == what then 0
    else 1 + FirstIndexOf(s[1..], what)
  }

  /** `erase_u`: the last element moves into slot `i`, then the last slot goes. */
  function SwappedOut<T>(s: seq<T>, i: nat): (r: seq<T>)
    requires i < |s|
    ensures |r| == |s| - 1
    ensures forall k :: 0 <= k < |r| && k != i ==> r[k] == s[k]
    ensures i < |r| ==> r[i] == s[|s| - 1]
  {
    s[i := s[|s| - 1]][..|s| - 1]
  }

  /** `erase_u` removes exactly the element at `i`; only the order changes. */
  lemma SwappedOutMultiset<T>(s: seq<T>, i: nat)
    requires i < |s|
    ensures multiset(SwappedOut(s, i)) == multiset(s) - multiset{s[i]}
  {
    var t := s[i := s[|s| - 1]];
    assert multiset(t) == multiset(s) - multiset{s[i]} + multiset{s[|s| - 1]};
    var r := SwappedOut(s, i);
    assert t == r + [s[|s| - 1]];
    assert multiset(t) == multiset(r) + multiset{s[|s| - 1]};
    assert multiset(r) == multiset(t) - multiset{s[|s| - 1]};
  }

  /** `resize`: cut back, or padded with copies of `e`. */
  function Resized<T>(s: seq<T>, n: nat, e: T): (r: seq<T>)
    ensures |r| == n
    ensures forall k :: 0 <= k < n && k < |s| ==> r[k] == s[k]
    ensures forall k :: |s| <= k < n ==> r[k] == e
  {
    if n < |s| then s[..n] else s + seq(n - |s|, _ => e)
  }

  class Vector<T(0, ==)> {
    var data: array<T>
    var size: nat
    /** vector_storage_static: the buffer is fixed and never reallocated. */
    const fixedStorage: bool

    ghost predicate Valid()
      reads this
    {
      size <= data.Length
    }

    /** The live elements, [begin(), end()). */
    function Contents(): seq<T>
      reads this, data
      requires Valid()
    {
      data[..size]
    }

    /** An empty vector over a fresh buffer of `capacity` slots; with
        `fixedStorage` this is vector_s<T, capacity>. */
    constructor (capacity: nat, fixedStorage: bool)
      ensures Valid() && fresh(data) && size == 0 && Contents() == []
      ensures data.Length == capacity && this.fixedStorage == fixedStorage
    {
      data := new T[capacity];
      size := 0;
      this.fixedStorage := fixedStorage;
    }

    /** needmakefit / makefit1 / makefit2: make room for `newsize` elements.
        Static storage only asserts that they fit; dynamic storage moves the
        live elements to a buffer of max(2 * capacity, newsize) slots. */
    method MakeFit(newsize: nat)
      requires Valid() && (fixedStorage ==> newsize <= data.Length)
      modifies this
      ensures Valid() && size == old(size) && newsize <= data.Length
      ensures Contents() == old(Contents())
      ensures data == old(data) || fresh(data)
      ensures (fixedStorage || newsize <= old(data.Length)) ==> data == old(data)
    {
      if newsize > data.Length {
        var cap := if 2 * data.Length > newsize then 2 * data.Length else newsize;
        var nd := new T[cap];
        forall i | 0 <= i < size {
          nd[i] := data[i];
        }
        data := nd;
      }
    }

    /** reserve(newcap). */
    method Reserve(newcap: nat)
      requires Valid() && (fixedStorage ==> newcap <= data.Length)
      modifies this
      ensures Valid() && Contents() == old(Contents()) && newcap <= data.Length
      ensures data == old(data) || fresh(data)
    {
      MakeFit(newcap);
    }

    /** extend_copy(pFrom, count): the elements read from `from` are appended;
        `from` may be a copy of part of this vector. */
    method ExtendCopy(from: seq<T>)
      requires Valid() && (fixedStorage ==> size + |from| <= data.Length)
      modifies this, data
      ensures Valid() && Contents() == old(Contents()) + from
      ensures data == old(data) || fresh(data)
    {
      ghost var prev := Contents();
      MakeFit(size + |from|);
      var i := 0;
      while i < |from|
        invariant 0 <= i <= |from| && size + |from| <= data.Length
        invariant data[..size] == prev
        invariant data[size..size + i] == from[..i]
        invariant data == old(data) || fresh(data)
      {
        data[size + i] := from[i];
        i := i + 1;
      }
      assert data[size..size + |from|] == from;
      assert data[..size + |from|] == prev + from by {
        assert data[..size + |from|] == data[..size] + data[size..size + |from|];
      }
      size := size + |from|;
    }

    /** extend_copy(from, count): `count` copies of `e` are appended. */
    method ExtendCopyN(e: T, count: nat)
      requires Valid() && (fixedStorage ==> size + count <= data.Length)
      modifies this, data
      ensures Valid() && Contents() == old(Contents()) + seq(count, _ => e)
      ensures data == old(data) || fresh(data)
    {
      ExtendCopy(seq(count, _ => e));
    }

    /** extend_default(count): `count` default-constructed elements are appended. */
    method ExtendDefault(count: nat, def: T)
      requires Valid() && (fixedStorage ==> size + count <= data.Length)
      modifies this, data
      ensures Valid() && Contents() == old(Contents()) + seq(count, _ => def)
      ensures data == old(data) || fresh(data)
    {
      ExtendCopyN(def, count);
    }

    /** shrink(newsize): the elements past `newsize` are destroyed. */
    method Shrink(newsize: nat)
      requires Valid() && newsize <= size
      modifies this
      ensures Valid() && data == old(data) && Contents() == old(Contents())[..newsize]
    {
      size := newsize;
    }

    method PushBack(e: T)
      requires Valid() && (fixedStorage ==> size < data.Length)
      modifies this, data
      ensures Valid() && Contents() == old(Contents()) + [e]
      ensures data == old(data) || fresh(data)
    {
      ExtendCopy([e]);
    }

    /** pop_back is shrink(size - 1). */
    method PopBack()
      requires Valid() && size >= 1
      modifies this
      ensures Valid() && data == old(data) && Contents() == old(Contents())[..old(size) - 1]
    {
      Shrink(size - 1);
    }

    /** clear is shrink(0); the buffer is kept. */
    method Clear()
      requires Valid()
      modifies this
      ensures Valid() && Contents() == [] && data == old(data)
    {
      Shrink(0);
    }

    /** release: shrink(0), then the storage frees its buffer (the static
        storage's release does nothing). */
    method Release()
      requires Valid()
      modifies this
      ensures Valid() && Contents() == []
      ensures fixedStorage ==> data == old(data)
      ensures !fixedStorage ==> data.Length == 0
    {
      Shrink(0);
      if !fixedStorage {
        data := new T[0];
      }
    }

    /** Moves data[from..from+count] up by `dist` slots, top element first
        (entry_array::move onto an overlapping higher range). */
    method ShiftUp(from: nat, count: nat, dist: nat)
      requires from + count + dist <= data.Length
      modifies data
      ensures forall k :: 0 <= k < data.Length ==>
                data[k] == if from + dist <= k < from + count + dist then old(data[k - dist]) else old(data[k])
    {
      var i := count;
      while i > 0
        invariant 0 <= i <= count
        invariant forall k :: 0 <= k < data.Length ==>
                    data[k] == if from + i + dist <= k < from + count + dist then old(data[k - dist]) else old(data[k])
      {
        data[from + i - 1 + dist] := data[from + i - 1];
        i := i - 1;
      }
    }

    /** Moves data[from+gap..from+gap+count] down to data[from..from+count],
        lowest element first (entry_array::move onto a lower range). */
    method ShiftDown(from: nat, gap: nat, count: nat)
      requires from + gap + count <= data.Length
      modifies data
      ensures forall k :: 0 <= k < data.Length ==>
                data[k] == if from <= k < from + count then old(data[k + gap]) else old(data[k])
    {
      var i := 0;
      while i < count
        invariant 0 <= i <= count
        invariant forall k :: 0 <= k < data.Length ==>
                    data[k] == if from <= k < from + i then old(data[k + gap]) else old(data[k])
      {
        data[from + i] := data[from + i + gap];
        i := i + 1;
      }
    }

    /** insert(position, e) with position = begin() + n.  At end() it is a
        push_back and returns begin(), not the new element; otherwise the
        vector grows by a copy of back(), the tail moves up one slot, `e` is
        stored at n, and the result is n. */
    method Insert(n: nat, e: T) returns (it: nat)
      requires Valid() && n <= size && (fixedStorage ==> size < data.Length)
      modifies this, data
      ensures Valid() && Contents() == Inserted(old(Contents()), n, e)
      ensures it == if n == old(size) then 0 else n
      ensures data == old(data) || fresh(data)
    {
      ghost var prev := Contents();
      if n == size {
        PushBack(e);
        return 0;
      }
      ExtendCopy([data[size - 1]]);
      ghost var mid := data[..];
      assert mid[..size] == prev + [prev[|prev| - 1]];
      assert forall j :: 0 <= j < |prev| ==> mid[j] == prev[j];
      label Shifted:
      ShiftUp(n, size - 1 - n, 1);
      forall k | 0 <= k < size
        ensures data[k] == if n + 1 <= k then prev[k - 1] else prev[k]
      {
        if n + 1 <= k {
          assert data[k] == old@Shifted(data[k - 1]);
        } else {
          assert data[k] == old@Shifted(data[k]);
        }
      }
      data[n] := e;
      assert forall k :: 0 <= k < size ==> data[k] == Inserted(prev, n, e)[k];
      return n;
    }

    /** insert(position, first, last), through vector_base::insert: the
        range is inserted at n and the result is begin() + n. */
    method InsertRange(n: nat, items: seq<T>) returns (it: nat)
      requires Valid() && n <= size && (fixedStorage ==> size + |items| <= data.Length)
      modifies this, data
      ensures Valid() && Contents() == old(Contents())[..n] + items + old(Contents())[n..]
      ensures it == n
      ensures data == old(data) || fresh(data)
    {
      ghost var prev := Contents();
      var oldSize := size;
      var k := |items|;
      MakeFit(size + k);
      // move the tail up by k slots, top first
      ShiftUp(n, oldSize - n, k);
      // ... then copy the range in
      var c := 0;
      while c < k
        invariant 0 <= c <= k && oldSize + k <= data.Length && size == oldSize
        invariant forall j :: 0 <= j < n ==> data[j] == prev[j]
        invariant forall j :: n <= j < n + c ==> data[j] == items[j - n]
        invariant forall j :: n + k <= j < oldSize + k ==> data[j] == prev[j - k]
        invariant data == old(data) || fresh(data)
      {
        data[n + c] := items[c];
        c := c + 1;
      }
      size := oldSize + k;
      assert Contents() == prev[..n] + items + prev[n..];
      return n;
    }

    /** erase(position) at index n: the tail slides down, the result is the
        same index. */
    method Erase(n: nat) returns (it: nat)
      requires Valid() && n < size
      modifies this, data
      ensures Valid() && data == old(data)
      ensures Contents() == ErasedRange(old(Contents()), n, n + 1)
      ensures it == n
    {
      ghost var prev := Contents();
      ShiftDown(n, 1, size - 1 - n);
      size := size - 1;
      assert forall k :: 0 <= k < size ==> data[k] == ErasedRange(prev, n, n + 1)[k];
      return n;
    }

    /** erase(first, last): a no-op returning end() when last <= first,
        otherwise the range is removed and the result is first. */
    method EraseRange(first: nat, last: nat) returns (it: nat)
      requires Valid() && first <= size && last <= size
      modifies this, data
      ensures Valid() && data == old(data)
      ensures last <= first ==> Contents() == old(Contents()) && it == size
      ensures first < last ==> Contents() == ErasedRange(old(Contents()), first, last) && it == first
    {
      if last <= first {
        return size;
      }
      ghost var prev := Contents();
      ShiftDown(first, last - first, size - last);
      size := size - (last - first);
      assert forall k :: 0 <= k < size ==> data[k] == ErasedRange(prev, first, last)[k];
      return first;
    }

    /** erase_u(position): the last element overwrites the erased slot, then
        pop_back; the order is not kept.  Returns the same index. */
    method EraseU(i: nat) returns (it: nat)
      requires Valid() && i < size
      modifies this, data
      ensures Valid() && data == old(data)
      ensures Contents() == SwappedOut(old(Contents()), i)
      ensures it == i
    {
      ghost var prev := Contents();
      if i != size - 1 {
        data[i] := data[size - 1];
      }
      PopBack();
      assert forall k :: 0 <= k < size ==> data[k] == SwappedOut(prev, i)[k];
      return i;
    }

    /** resize(new_size, e): shrink, or append copies of `e` (resize(n)
        passes the default-constructed value). */
    method Resize(newSize: nat, e: T)
      requires Valid() && (fixedStorage ==> newSize <= data.Length)
      modifies this, data
      ensures Valid() && Contents() == Resized(old(Contents()), newSize, e)
      ensures data == old(data) || fresh(data)
    {
      if newSize < size {
        Shrink(newSize);
      } else {
        ExtendCopyN(e, newSize - size);
      }
    }

    /** assign(first, last): the contents become the range.  When the range
        fits in the current size it is moved down over the front and the rest
        is cut; otherwise the vector is emptied and rebuilt from the range. */
    method Assign(items: seq<T>)
      requires Valid() && (fixedStorage ==> |items| <= data.Length)
      modifies this, data
      ensures Valid() && Contents() == items
      ensures data == old(data) || fresh(data)
    {
      if size >= |items| {
        var i := 0;
        while i < |items|
          invariant 0 <= i <= |items| <= size <= data.Length && data == old(data)
          invariant data[..i] == items[..i]
        {
          data[i] := items[i];
          i := i + 1;
        }
        Shrink(|items|);
      } else {
        Shrink(0);
        ExtendCopy(items);
      }
    }

    /** swap(other): the sizes and then the buffers are exchanged. */
    method Swap(other: Vector<T>)
      requires Valid() && other.Valid() && other != this
      requires fixedStorage == other.fixedStorage
      modifies this, other
      ensures Valid() && other.Valid()
      ensures Contents() == old(other.Contents()) && other.Contents() == old(Contents())
    {
      data, other.data := other.data, data;
      size, other.size := other.size, size;
    }

    /** find(what): the first element equal to `what`, else end(). */
    method Find(what: T) returns (it: nat)
      requires Valid()
      ensures it <= size
      ensures it < size ==> data[it] == what
      ensures forall j :: 0 <= j < it ==> data[j] != what
    {
      it := 0;
      while it < size
        invariant 0 <= it <= size
        invariant forall j :: 0 <= j < it ==> data[j] != what
      {
        if data[it] == what {
          return;
        }
        it := it + 1;
      }
    }

    /** at(i), operator[]: asserts 0 <= i < size. */
    function At(i: nat): (e: T)
      reads this, data
      requires Valid() && i < size
      ensures e == Contents()[i]
    {
      data[i]
    }

    function Back(): (e: T)
      reads this, data
      requires Valid() && size >= 1
      ensures e == Contents()[|Contents()| - 1]
    {
      data[size - 1]
    }
  }

  /** The search `find` performs agrees with its reference definition. */
  lemma {:induction false} FindIsFirstIndex<T>(s: seq<T>, what: T, it: nat)
    requires it <= |s| && (it < |s| ==> s[it] == what)
    requires forall j :: 0 <= j < it ==> s[j] != what
    ensures it == FirstIndexOf(s, what)
  {
    if s != [] && s[0] != what {
      FindIsFirstIndex(s[1..], what, it - 1);
    }
  }
}
