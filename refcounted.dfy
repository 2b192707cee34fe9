/**
  The weak-pointer table of RefCounted.cpp.  Every RefCounted object owns
  one slot of a global table; a weak handle is the pair (slot index, guid).
  Freeing an object steps the slot's guid, so handles taken before resolve to
  NULL, and the slot goes on a LIFO free list threaded through the slots.

  Pointers are modelled as integers, 0 being NULL.  A slot is the source's
  union of `m_ptr` and `m_nextFree`, one word, plus the 32-bit guid.  The
  ghost `gen` counts every guid step without wrapping, so the guid is
  `gen % GuidLimit`; the ghost `freeList` lists the free slots from the head.
*/
module RefCountedTable {

  /** guid_type is uint32 in the build without DO_16BIT_INDEX. */
  const GuidLimit: nat := 0x1_0000_0000

  /** sizeof(WeakTableEntry) under pack(2) with 64-bit pointers. */
  const EntrySize: nat := 12

  /** c_tableGrowCount: the table grows by one 4096-byte page of entries. */
  const TableGrowCount: nat := 4096 / EntrySize

  datatype Slot = Slot(word: int, guid: nat)

  /** The free slot after the k-th one on the list, -1 after the last. */
  function NextOf(fl: seq<nat>, k: nat): int
  {
    if k + 1 < |fl| then fl[k + 1] else -1
  }

  /** The free list starts at `head` and follows the slots' words; -1 ends it. */
  ghost predicate FreeChain(slots: seq<Slot>, fl: seq<nat>, head: int)
  {
    (forall k :: 0 <= k < |fl| ==> fl[k] < |slots|) &&
    head == (if fl == [] then -1 else fl[0]) &&
    (forall k {:trigger slots[fl[k]]} :: 0 <= k < |fl| ==> slots[fl[k]].word == NextOf(fl, k))
  }

  /** Popping the head of a free chain: the head slot takes `ptr`, and the
      chain goes on from the next free slot. */
  lemma PopKeepsChain(slots: seq<Slot>, fl: seq<nat>, head: int, ptr: int)
    requires FreeChain(slots, fl, head) && head > 0
    requires forall k, l :: 0 <= k < l < |fl| ==> fl[k] != fl[l]
    ensures fl != [] && head == fl[0]
    ensures FreeChain(slots[head := Slot(ptr, slots[head].guid)], fl[1..], slots[head].word)
  {
    var t := slots[head := Slot(ptr, slots[head].guid)];
    var rest := fl[1..];
    assert slots[fl[0]].word == NextOf(fl, 0);
    forall k | 0 <= k < |rest|
      ensures t[rest[k]].word == NextOf(rest, k)
    {
      assert rest[k] == fl[k + 1] && fl[k + 1] != fl[0];
      assert slots[fl[k + 1]].word == NextOf(fl, k + 1);
    }
  }

  /** Pushing slot `index` on a free chain: its word takes the old head. */
  lemma PushKeepsChain(slots: seq<Slot>, fl: seq<nat>, head: int, index: nat, guid: nat)
    requires FreeChain(slots, fl, head) && index < |slots| && index !in fl
    ensures FreeChain(slots[index := Slot(head, guid)], [index] + fl, index)
  {
    var t := slots[index := Slot(head, guid)];
    var l := [index] + fl;
    forall k | 0 <= k < |l|
      ensures l[k] < |t| && t[l[k]].word == NextOf(l, k)
    {
      if k > 0 {
        assert l[k] == fl[k - 1] && fl[k - 1] != index;
        assert slots[fl[k - 1]].word == NextOf(fl, k - 1);
      }
    }
  }

  /** A slot off the free chain can change its guid without breaking it. */
  lemma GuidKeepsChain(slots: seq<Slot>, fl: seq<nat>, head: int, index: nat, guid: nat)
    requires FreeChain(slots, fl, head) && index < |slots| && index !in fl
    ensures FreeChain(slots[index := Slot(slots[index].word, guid)], fl, head)
  {
    var t := slots[index := Slot(slots[index].word, guid)];
    forall k | 0 <= k < |fl|
      ensures t[fl[k]].word == NextOf(fl, k)
    {
      assert fl[k] != index;
    }
  }

  /** Stepping a wrapped guid is stepping the counter it wraps. */
  lemma StepGuid(g: nat)
    ensures ((g % GuidLimit) + 1) % GuidLimit == (g + 1) % GuidLimit
    ensures (g + 1) % GuidLimit != g % GuidLimit
  {
  }

  /** Two counts less than 2^32 apart wrap to different guids. */
  lemma GuidsDiffer(a: nat, b: nat)
    requires a < b < a + GuidLimit
    ensures a % GuidLimit != b % GuidLimit
  {
    var q := a / GuidLimit;
    assert a == q * GuidLimit + a % GuidLimit;
    if b / GuidLimit == q {
      assert b % GuidLimit == b - q * GuidLimit;
    } else {
      assert b / GuidLimit == q + 1;
      assert b % GuidLimit == b - (q + 1) * GuidLimit;
    }
  }

  /** s_pointerTable, s_numPointers and s_nextFree. */
  class PointerTable {
    var slots: seq<Slot>
    var numPointers: int
    var nextFree: int
    ghost var freeList: seq<nat>
    ghost var gen: seq<nat>

    ghost predicate Valid()
      reads this
    {
      1 <= numPointers <= |slots| && |gen| == |slots| &&
      slots[0] == Slot(0, 0) &&
      (forall i :: 0 <= i < |slots| ==> slots[i].guid == gen[i] % GuidLimit) &&
      (forall i :: numPointers <= i < |slots| ==> slots[i] == Slot(0, 0) && gen[i] == 0) &&
      (forall k :: 0 <= k < |freeList| ==> 1 <= freeList[k] < numPointers) &&
      (forall k, l :: 0 <= k < l < |freeList| ==> freeList[k] != freeList[l]) &&
      FreeChain(slots, freeList, nextFree)
    }

    /** A slot that belongs to an object: issued and not on the free list. */
    ghost predicate Live(index: int)
      reads this
    {
      1 <= index < numPointers && index !in freeList
    }

    /** The guid counters only ever grow. */
    twostate predicate GenGrows()
      reads this
    {
      |old(gen)| <= |gen| && forall i :: 0 <= i < |old(gen)| ==> old(gen[i]) <= gen[i]
    }

    /** GetPointerTable(): one page of zeroed entries; s_numPointers starts at
        1 and the free list is empty, so index 0 is never issued. */
    constructor ()
      ensures Valid() && numPointers == 1 && nextFree == -1 && freeList == []
      ensures |slots| == TableGrowCount
    {
      slots := seq(TableGrowCount, _ => Slot(0, 0));
      gen := seq(TableGrowCount, _ => 0);
      numPointers := 1;
      nextFree := -1;
      freeList := [];
    }

    /** LookupPointer(index, guid): the slot's pointer when the guids match,
        NULL otherwise. */
    function LookupPointer(index: nat, guid: nat): (p: int)
      requires index < |slots|
      reads this
      ensures p != 0 ==> slots[index].guid == guid
      ensures slots[index].guid == guid ==> p == slots[index].word
    {
      if slots[index].guid != guid then 0 else slots[index].word
    }

    /** The handle (0, 0) is the null handle: it always resolves to NULL. */
    lemma NullHandle()
      requires Valid()
      ensures LookupPointer(0, 0) == 0
    {
    }

    /** A handle taken at generation `taken` of its slot resolves to NULL once
        the slot has been stepped at least once and fewer than 2^32 times. */
    lemma StaleHandle(index: nat, guid: nat, taken: nat)
      requires Valid() && index < |slots|
      requires guid == taken % GuidLimit && taken < gen[index] < taken + GuidLimit
      ensures LookupPointer(index, guid) == 0
    {
      GuidsDiffer(taken, gen[index]);
    }

    /** AddToTable(ptr): reuses the most recently freed slot, which keeps the
        guid its removal stepped; otherwise issues the next fresh slot with
        guid 0, growing the table by a page when it is full. */
    method AddToTable(ptr: int) returns (index: nat)
      requires Valid()
      modifies this
      ensures Valid() && Live(index) && slots[index].word == ptr && GenGrows()
      ensures forall i :: 0 <= i < old(|slots|) && i != index ==> slots[i] == old(slots[i])
      ensures forall i :: 0 <= i < old(|slots|) && i != index ==> old(Live(i)) == Live(i)
      ensures old(nextFree) > 0 ==>
        index == old(nextFree) && freeList == old(freeList[1..]) && gen == old(gen) &&
        slots[index].guid == old(slots[index].guid) && numPointers == old(numPointers)
      ensures old(nextFree) <= 0 ==>
        index == old(numPointers) && numPointers == old(numPointers) + 1 &&
        freeList == old(freeList) && slots[index] == Slot(ptr, 0)
      ensures |slots| == if old(nextFree) <= 0 && old(numPointers) >= old(|slots|)
                         then old(numPointers) + TableGrowCount else old(|slots|)
    {
      if nextFree > 0 {
        index := ReuseFree(ptr);
      } else {
        index := IssueFresh(ptr);
      }
    }

    /** AddToTable with a free slot: the head of the free list is popped. */
    method ReuseFree(ptr: int) returns (index: nat)
      requires Valid() && nextFree > 0
      modifies this
      ensures Valid() && Live(index) && slots[index].word == ptr && GenGrows()
      ensures forall i :: 0 <= i < old(|slots|) && i != index ==> slots[i] == old(slots[i])
      ensures forall i :: 0 <= i < old(|slots|) && i != index ==> old(Live(i)) == Live(i)
      ensures index == old(nextFree) && freeList == old(freeList[1..]) && gen == old(gen) &&
        slots[index].guid == old(slots[index].guid) && numPointers == old(numPointers)
      ensures |slots| == old(|slots|)
    {
      index := nextFree;
      var entry := slots[index];
      PopKeepsChain(slots, freeList, nextFree, ptr);
      nextFree := entry.word;
      slots := slots[index := Slot(ptr, entry.guid)];
      freeList := freeList[1..];
    }

    /** AddToTable with no free slot: the next fresh slot is issued, after
        the table grows by a page when it is full. */
    method IssueFresh(ptr: int) returns (index: nat)
      requires Valid() && nextFree <= 0
      modifies this
      ensures Valid() && Live(index) && slots[index].word == ptr && GenGrows()
      ensures forall i :: 0 <= i < old(|slots|) && i != index ==> slots[i] == old(slots[i])
      ensures forall i :: 0 <= i < old(|slots|) && i != index ==> old(Live(i)) == Live(i)
      ensures index == old(numPointers) && numPointers == old(numPointers) + 1 &&
        freeList == old(freeList) && slots[index] == Slot(ptr, 0)
      ensures |slots| == if old(numPointers) >= old(|slots|) then old(numPointers) + TableGrowCount else old(|slots|)
    {
      if numPointers >= |slots| {
        slots := slots + seq(TableGrowCount, _ => Slot(0, 0));
        gen := gen + seq(TableGrowCount, _ => 0);
      }
      index := numPointers;
      numPointers := numPointers + 1;
      slots := slots[index := Slot(ptr, 0)];
    }

    /** RemoveFromTable(ptr, index): the slot must hold `ptr`; its guid is
        stepped and it is pushed on the free list. */
    method RemoveFromTable(ptr: int, index: nat)
      requires Valid() && Live(index) && slots[index].word == ptr
      modifies this
      ensures Valid() && !Live(index) && GenGrows()
      ensures nextFree == index && freeList == [index] + old(freeList)
      ensures gen == old(gen)[index := old(gen[index]) + 1] && numPointers == old(numPointers)
      ensures slots == old(slots)[index := Slot(old(nextFree), (old(slots[index].guid) + 1) % GuidLimit)]
      ensures LookupPointer(index, old(slots[index].guid)) == 0
    {
      StepGuid(gen[index]);
      PushKeepsChain(slots, freeList, nextFree, index, (slots[index].guid + 1) % GuidLimit);
      slots := slots[index := Slot(nextFree, (slots[index].guid + 1) % GuidLimit)];
      gen := gen[index := gen[index] + 1];
      freeList := [index] + freeList;
      nextFree := index;
    }

    /** ClearWeakPtrs(): steps the guid of a live slot so that every weak
        handle to it stops resolving; the slot stays issued. */
    method ClearWeakPtrs(index: nat)
      requires Valid() && Live(index)
      modifies this
      ensures Valid() && Live(index) && GenGrows()
      ensures gen == old(gen)[index := old(gen[index]) + 1]
      ensures slots == old(slots)[index := Slot(old(slots[index].word), (old(slots[index].guid) + 1) % GuidLimit)]
      ensures numPointers == old(numPointers) && nextFree == old(nextFree) && freeList == old(freeList)
      ensures LookupPointer(index, old(slots[index].guid)) == 0
    {
      StepGuid(gen[index]);
      GuidKeepsChain(slots, freeList, nextFree, index, (slots[index].guid + 1) % GuidLimit);
      slots := slots[index := Slot(slots[index].word, (slots[index].guid + 1) % GuidLimit)];
      gen := gen[index := gen[index] + 1];
    }
  }

  /** A RefCounted object: its reference count and its slot in the table. */
  class RefCounted {
    var refCount: int
    var index: nat
    /** the object's own address, what its slot points at */
    const addr: int

    ghost predicate InTable(t: PointerTable)
      reads this, t
    {
      t.Valid() && t.Live(index) && t.slots[index].word == addr
    }

    /** RefCounted(): no reference yet; the object takes a slot. */
    constructor (t: PointerTable, addr: int)
      requires t.Valid()
      modifies t
      ensures refCount == 0 && this.addr == addr && InTable(t) && t.GenGrows()
      ensures forall i :: 0 <= i < old(|t.slots|) && i != index ==> t.slots[i] == old(t.slots[i])
    {
      this.addr := addr;
      refCount := 0;
      new;
      index := t.AddToTable(addr);
    }

    /** GetPointerTableGuid(): the guid that, with the index, makes a handle
        resolving to this object. */
    method GetPointerTableGuid(t: PointerTable) returns (guid: nat)
      requires InTable(t)
      ensures t.LookupPointer(index, guid) == addr
    {
      guid := t.slots[index].guid;
    }

    /** RefCounted_TakeRef(). */
    method TakeRef()
      modifies this
      ensures refCount == old(refCount) + 1 && index == old(index)
    {
      refCount := refCount + 1;
    }

    /** ~RefCounted(): requires the count to be 0; gives the slot back. */
    method Destroy(t: PointerTable)
      requires refCount == 0 && InTable(t)
      modifies t
      ensures t.Valid() && !t.Live(index) && t.nextFree == index && t.GenGrows()
      ensures t.freeList == [index] + old(t.freeList)
      ensures t.gen == old(t.gen)[index := old(t.gen[index]) + 1]
      ensures t.LookupPointer(index, old(t.slots[index].guid)) == 0
    {
      t.RemoveFromTable(addr, index);
    }

    /** RefCounted_FreeRef(): requires a reference; the last one clears the
        weak pointers and destroys the object, stepping the guid twice. */
    method FreeRef(t: PointerTable)
      requires refCount > 0 && InTable(t)
      modifies this, t
      ensures refCount == old(refCount) - 1 && index == old(index) && t.GenGrows()
      ensures refCount > 0 ==> InTable(t) && t.slots == old(t.slots) && t.freeList == old(t.freeList)
      ensures refCount == 0 ==>
        t.Valid() && !t.Live(index) && t.nextFree == index && t.freeList == [index] + old(t.freeList) &&
        t.gen[index] == old(t.gen[index]) + 2 && t.LookupPointer(index, old(t.slots[index].guid)) == 0
    {
      refCount := refCount - 1;
      if refCount == 0 {
        ghost var g0 := t.gen[index];
        StepGuid(g0);
        StepGuid(g0 + 1);
        t.ClearWeakPtrs(index);
        Destroy(t);
      }
    }
  }
}
