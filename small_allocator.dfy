/**
  The greedy small-block allocator of SmallAllocator_Greedy.cpp.  Requests
  up to 256 bytes are served from 32 size classes, multiples of 8 bytes.
  Each class keeps a LIFO free list of chunks carved from 8192-byte blocks
  that are never given back until Destroy; larger requests go to malloc.

  Memory is modelled by integer addresses.  What the low-level system
  allocator and malloc return is passed in as a parameter.  A class's free
  list, threaded through the free chunks in the source, is the sequence
  `free` (head first), its block list the sequence `hunks` (newest first),
  and the ghost set `inUse` holds the chunks handed out and not yet freed.
*/
module SmallAllocatorGreedy {

  import CLib

  const SmallChunkMaxBytes: int := 256
  const AlignShift: nat := 3
  const AlignRound: int := 7
  const SmallChunkCount: int := 32
  const SmallChunkAllocSize: int := 8192
  /** what a block holds after its next-block pointer (a 4-byte pointer) */
  const SmallChunkMemHunkSize: int := 8188
  const BlockHeader: int := SmallChunkAllocSize - SmallChunkMemHunkSize

  /** IndexToSize(index): (index + 1) << 3. */
  function IndexToSize(index: int): int
  {
    (index + 1) * 8
  }

  /** SizeToIndex(size): ((size + 7) >> 3) - 1; the shift of a signed int
      rounds down, as Dafny's division by 8 does. */
  function SizeToIndex(size: int): int
  {
    (size + AlignRound) / 8 - 1
  }

  /** A small size maps to a valid class whose chunks are the size rounded
      up to a multiple of 8. */
  lemma SizeClass(size: int)
    requires 1 <= size <= SmallChunkMaxBytes
    ensures 0 <= SizeToIndex(size) < SmallChunkCount
    ensures size <= IndexToSize(SizeToIndex(size)) < size + 8
    ensures IndexToSize(SizeToIndex(size)) % 8 == 0
  {
  }

  /** Every class is the class of its own chunk size. */
  lemma IndexRoundTrip(index: int)
    requires 0 <= index < SmallChunkCount
    ensures SizeToIndex(IndexToSize(index)) == index
  {
  }

  /** A size of 0 (or less) falls outside the classes. */
  lemma NoClassForZero(size: int)
    requires size <= 0
    ensures SizeToIndex(size) < 0
  {
  }

  /** m_nChunks: how many chunks of `size` bytes fit in a block after its
      header. */
  function ChunksPerBlock(size: int): (n: nat)
    requires size >= 4
    ensures n * size <= SmallChunkMemHunkSize < n * size + size
  {
    CLib.DivModUnique(SmallChunkMemHunkSize, size, SmallChunkMemHunkSize / size, SmallChunkMemHunkSize % size);
    SmallChunkMemHunkSize / size
  }

  /** The chunk addresses of a block starting at `base`, in address order. */
  function ChunkAddresses(base: int, size: int, n: nat): (s: seq<int>)
    ensures |s| == n && forall i :: 0 <= i < n ==> s[i] == base + i * size
  {
    seq(n, i => base + i * size)
  }

  /** `a` lies in one of the blocks. */
  predicate InSomeHunk(a: int, hunks: seq<int>)
  {
    exists k :: 0 <= k < |hunks| && hunks[k] <= a < hunks[k] + SmallChunkAllocSize
  }

  /** A block overlapping none of the existing ones. */
  predicate FreshBlock(block: int, hunks: seq<int>)
  {
    forall k :: 0 <= k < |hunks| ==> hunks[k] + SmallChunkAllocSize <= block || block + SmallChunkAllocSize <= hunks[k]
  }

  predicate Distinct(s: seq<int>)
  {
    forall i, j :: 0 <= i < j < |s| ==> s[i] != s[j]
  }

  /** The chunks of a block fit in it after its header, and lie in it. */
  lemma ChunksFit(block: int, size: int)
    requires 4 <= size
    ensures var n := ChunksPerBlock(size);
      BlockHeader + n * size <= SmallChunkAllocSize &&
      forall i :: 0 <= i < n ==> block <= block + BlockHeader + i * size < block + SmallChunkAllocSize
  {
    var n := ChunksPerBlock(size);
    assert n * size <= SmallChunkMemHunkSize;
    forall i | 0 <= i < n
      ensures block + BlockHeader + i * size < block + SmallChunkAllocSize
    {
      MulLess(i, n, size);
    }
  }

  lemma MulLess(i: int, n: int, size: int)
    requires 0 <= i < n && 0 < size
    ensures i * size + size <= n * size
  {
    CLib.MulMonotone(n, i + 1, size);
    assert (i + 1) * size == i * size + size;
  }

  /** Chunk addresses of one block are distinct. */
  lemma ChunkAddressesDistinct(base: int, size: int, n: nat)
    requires 0 < size
    ensures Distinct(ChunkAddresses(base, size, n))
  {
    var s := ChunkAddresses(base, size, n);
    forall i, j | 0 <= i < j < n
      ensures s[i] != s[j]
    {
      MulLess(i, j, size);
    }
  }

  /** The free chunks are distinct, none is in use, and every free or used
      chunk lies in one of the blocks. */
  ghost predicate Consistent(free: seq<int>, hunks: seq<int>, inUse: set<int>)
  {
    Distinct(free) &&
    (forall i :: 0 <= i < |free| ==> free[i] !in inUse && InSomeHunk(free[i], hunks)) &&
    (forall a :: a in inUse ==> InSomeHunk(a, hunks))
  }

  /** Threading the chunks of a fresh block onto an empty free list keeps the
      class consistent. */
  lemma ExtendConsistent(block: int, hunks: seq<int>, inUse: set<int>, size: int)
    requires Consistent([], hunks, inUse) && FreshBlock(block, hunks) && 4 <= size
    ensures Consistent(ChunkAddresses(block + BlockHeader, size, ChunksPerBlock(size)), [block] + hunks, inUse)
  {
    var n := ChunksPerBlock(size);
    var free := ChunkAddresses(block + BlockHeader, size, n);
    var hs := [block] + hunks;
    ChunksFit(block, size);
    ChunkAddressesDistinct(block + BlockHeader, size, n);
    forall x | x in inUse
      ensures InSomeHunk(x, hs) && (x < block || block + SmallChunkAllocSize <= x)
    {
      var k :| 0 <= k < |hunks| && hunks[k] <= x < hunks[k] + SmallChunkAllocSize;
      assert hs[k + 1] == hunks[k];
    }
    forall j | 0 <= j < n
      ensures free[j] !in inUse && InSomeHunk(free[j], hs)
    {
      assert hs[0] <= free[j] < hs[0] + SmallChunkAllocSize;
    }
  }

  /** Handing out the head of the free list keeps the class consistent. */
  lemma PopConsistent(free: seq<int>, hunks: seq<int>, inUse: set<int>)
    requires Consistent(free, hunks, inUse) && |free| >= 1
    ensures free[0] !in inUse && Consistent(free[1..], hunks, inUse + {free[0]})
  {
  }

  /** Giving back a chunk in use keeps the class consistent. */
  lemma PushConsistent(free: seq<int>, hunks: seq<int>, inUse: set<int>, p: int)
    requires Consistent(free, hunks, inUse) && p in inUse
    ensures Consistent([p] + free, hunks, inUse - {p})
  {
  }

  /** SmallChunkAllocator: one size class. */
  class ChunkAllocator {
    var free: seq<int>
    var hunks: seq<int>
    var chunks: nat
    var hunkSize: int
    ghost var inUse: set<int>

    ghost predicate Valid()
      reads this
    {
      4 <= hunkSize && hunkSize % 4 == 0 && chunks == ChunksPerBlock(hunkSize) &&
      Consistent(free, hunks, inUse)
    }

    /** Construct(size): requires a multiple of 4 that is at least 4; no
        block, an empty free list, and as many chunks per block as fit. */
    constructor (size: int)
      requires size % 4 == 0 && size >= 4
      ensures Valid() && free == [] && hunks == [] && inUse == {}
      ensures hunkSize == size && chunks == ChunksPerBlock(size)
      ensures chunks * hunkSize <= SmallChunkMemHunkSize
    {
      free := [];
      hunks := [];
      hunkSize := size;
      chunks := ChunksPerBlock(size);
      inUse := {};
    }

    /** Extend(): takes the new block from the low-level allocator, puts it at
        the head of the block list and makes the free list its chunks, in
        address order. */
    method Extend(block: int)
      requires Valid() && free == [] && FreshBlock(block, hunks)
      modifies this
      ensures Valid() && hunks == [block] + old(hunks) && inUse == old(inUse)
      ensures hunkSize == old(hunkSize) && chunks == old(chunks)
      ensures free == ChunkAddresses(block + BlockHeader, hunkSize, chunks)
    {
      ghost var target := ChunkAddresses(block + BlockHeader, hunkSize, chunks);
      ExtendConsistent(block, hunks, inUse, hunkSize);
      ChunksFit(block, hunkSize);
      hunks := [block] + hunks;
      var threaded: seq<int> := [];
      var ptr := block + BlockHeader;
      var i := 0;
      while i < chunks
        invariant 0 <= i <= chunks && |threaded| == i
        invariant ptr == block + BlockHeader + i * hunkSize
        invariant threaded == target[..i]
      {
        assert target[i] == ptr;
        assert target[..i + 1] == target[..i] + [ptr];
        threaded := threaded + [ptr];
        ptr := ptr + hunkSize;
        i := i + 1;
      }
      free := threaded;
      assert free == target;
    }

    /** Allocate(): pops the head of the free list, extending first when it is
        empty; the chunk handed out was not in use. */
    method Allocate(block: int) returns (ptr: int)
      requires Valid() && (free == [] ==> FreshBlock(block, hunks) && hunkSize <= SmallChunkMemHunkSize)
      modifies this
      ensures Valid() && hunkSize == old(hunkSize) && chunks == old(chunks)
      ensures ptr !in old(inUse) && inUse == old(inUse) + {ptr}
      ensures old(free) != [] ==> ptr == old(free[0]) && free == old(free[1..]) && hunks == old(hunks)
      ensures old(free) == [] ==>
        hunks == [block] + old(hunks) && ptr == block + BlockHeader &&
        free == ChunkAddresses(block + BlockHeader, hunkSize, chunks)[1..]
    {
      if free == [] {
        Extend(block);
      }
      PopConsistent(free, hunks, inUse);
      ptr := free[0];
      free := free[1..];
      inUse := inUse + {ptr};
    }

    /** Free(p): pushes a chunk in use back on the head of the free list. */
    method Free(p: int)
      requires Valid() && p in inUse
      modifies this
      ensures Valid() && free == [p] + old(free) && inUse == old(inUse) - {p}
      ensures hunks == old(hunks) && hunkSize == old(hunkSize) && chunks == old(chunks)
    {
      PushConsistent(free, hunks, inUse, p);
      free := [p] + free;
      inUse := inUse - {p};
    }

    /** Destruct(): gives every block back to the low-level allocator, newest
        first, and leaves the class empty and usable again. */
    method Destruct() returns (released: seq<int>)
      requires Valid()
      modifies this
      ensures Valid() && released == old(hunks) && free == [] && hunks == [] && inUse == {}
      ensures hunkSize == old(hunkSize) && chunks == old(chunks)
    {
      released := [];
      var k := 0;
      while k < |hunks|
        invariant 0 <= k <= |hunks| && released == hunks[..k]
      {
        released := released + [hunks[k]];
        k := k + 1;
      }
      free := [];
      hunks := [];
      inUse := {};
    }
  }

  /** Where a request of `size` bytes goes. */
  datatype Route = Malloc | Small(which: int)

  /** Allocate/Free: sizes above 256 go to malloc, the others to the class
      SizeToIndex(size). */
  function RouteOf(size: int): (r: Route)
    ensures size > SmallChunkMaxBytes <==> r == Malloc
    ensures 1 <= size <= SmallChunkMaxBytes ==>
      r.Small? && 0 <= r.which < SmallChunkCount && size <= IndexToSize(r.which) < size + 8
  {
    if size > SmallChunkMaxBytes then Malloc
    else
      SizeClass2(size);
      Small(SizeToIndex(size))
  }

  lemma SizeClass2(size: int)
    ensures 1 <= size <= SmallChunkMaxBytes ==>
      0 <= SizeToIndex(size) < SmallChunkCount && size <= IndexToSize(SizeToIndex(size)) < size + 8
  {
    if 1 <= size <= SmallChunkMaxBytes {
      SizeClass(size);
    }
  }

  /** Log(): the used bytes of class i as the statistics compute them,
      counting (i + 1) * 4 bytes per chunk. */
  function UsedBytesAsWritten(i: int, usedChunks: int): int
  {
    usedChunks * (i + 1) * 4
  }

  /** The bytes held by the chunks in use of class i: whatever request sizes
      were routed to the class, they are covered, with at most 7 bytes of
      rounding per chunk. */
  function UsedBytes(i: int, usedChunks: int): (b: int)
    requires 0 <= i < SmallChunkCount && 0 <= usedChunks
    ensures b >= usedChunks * 8 && b % 8 == 0
    ensures forall size :: 1 <= size <= SmallChunkMaxBytes && SizeToIndex(size) == i ==>
              usedChunks * size <= b <= usedChunks * (size + 7)
  {
    UsedBytesCovers(i, usedChunks);
    usedChunks * IndexToSize(i)
  }

  lemma UsedBytesCovers(i: int, usedChunks: int)
    requires 0 <= i < SmallChunkCount && 0 <= usedChunks
    ensures usedChunks * IndexToSize(i) >= usedChunks * 8 && (usedChunks * IndexToSize(i)) % 8 == 0
    ensures forall size :: 1 <= size <= SmallChunkMaxBytes && SizeToIndex(size) == i ==>
              usedChunks * size <= usedChunks * IndexToSize(i) <= usedChunks * (size + 7)
  {
    var c := IndexToSize(i);
    assert usedChunks * c == (usedChunks * (i + 1)) * 8;
    CLib.MulMonotone(c, 8, usedChunks);
    forall size | 1 <= size <= SmallChunkMaxBytes && SizeToIndex(size) == i
      ensures usedChunks * size <= usedChunks * c <= usedChunks * (size + 7)
    {
      SizeClass(size);
      CLib.MulMonotone(c, size, usedChunks);
      CLib.MulMonotone(size + 7, c, usedChunks);
    }
  }

  /** The statistics count half the bytes actually in use. */
  lemma UsedBytesHalved(i: int, usedChunks: int)
    requires 0 <= i < SmallChunkCount && 0 < usedChunks
    ensures UsedBytesAsWritten(i, usedChunks) * 2 == UsedBytes(i, usedChunks)
    ensures UsedBytesAsWritten(i, usedChunks) < UsedBytes(i, usedChunks)
  {
    assert usedChunks * (i + 1) * 8 == usedChunks * ((i + 1) * 8);
  }

  /** s_pAllocators: no classes until the first small request, then one
      ChunkAllocator per class. */
  class GreedyAllocator {
    var allocators: seq<ChunkAllocator>

    ghost predicate Valid()
      reads this, allocators
    {
      (|allocators| == 0 || |allocators| == SmallChunkCount) &&
      (forall i, j :: 0 <= i < j < |allocators| ==> allocators[i] != allocators[j]) &&
      (forall i :: 0 <= i < |allocators| ==> allocators[i].Valid() && allocators[i].hunkSize == IndexToSize(i))
    }

    /** The small class for `size` exists and its free list is empty, so the
        next request extends it with a new block. */
    ghost predicate ClassNeedsBlock(size: int)
      reads this, allocators
    {
      1 <= size <= SmallChunkMaxBytes && |allocators| == SmallChunkCount &&
      0 <= SizeToIndex(size) < SmallChunkCount && allocators[SizeToIndex(size)].free == []
    }

    constructor ()
      ensures Valid() && allocators == []
    {
      allocators := [];
    }

    /** SmallAllocator(which): constructs the classes on first use, each with
        chunk size IndexToSize(i), and returns class `which`. */
    method SmallAllocator(which: int) returns (a: ChunkAllocator)
      requires Valid() && 0 <= which < SmallChunkCount
      modifies this
      ensures Valid() && |allocators| == SmallChunkCount && a == allocators[which]
      ensures old(|allocators|) != 0 ==> allocators == old(allocators)
      ensures old(|allocators|) == 0 ==> forall i :: 0 <= i < SmallChunkCount ==>
        fresh(allocators[i]) && allocators[i].free == [] && allocators[i].hunks == [] && allocators[i].inUse == {}
    {
      if |allocators| == 0 {
        var built: seq<ChunkAllocator> := [];
        var i := 0;
        while i < SmallChunkCount
          invariant 0 <= i <= SmallChunkCount && |built| == i
          invariant forall j, k :: 0 <= j < k < i ==> built[j] != built[k]
          invariant forall j :: 0 <= j < i ==>
            fresh(built[j]) && built[j].Valid() && built[j].hunkSize == IndexToSize(j) &&
            built[j].free == [] && built[j].hunks == [] && built[j].inUse == {}
        {
          var c := new ChunkAllocator(IndexToSize(i));
          built := built + [c];
          i := i + 1;
        }
        allocators := built;
      }
      a := allocators[which];
    }

    /** Allocate(size): requires a size of at least 1; above 256 bytes the
        result is malloc's, otherwise a chunk of the class for `size`, at
        least `size` bytes long and not in use before. */
    method Allocate(size: int, block: int, mallocResult: int) returns (ptr: int)
      requires Valid() && size >= 1
      requires ClassNeedsBlock(size) ==> FreshBlock(block, allocators[SizeToIndex(size)].hunks)
      modifies this, if size <= SmallChunkMaxBytes && |allocators| == SmallChunkCount
                     then {allocators[SizeToIndex(size)]} else {}
      ensures Valid()
      ensures size > SmallChunkMaxBytes ==> ptr == mallocResult && allocators == old(allocators)
      ensures size <= SmallChunkMaxBytes ==>
        |allocators| == SmallChunkCount && 0 <= SizeToIndex(size) < SmallChunkCount &&
        size <= allocators[SizeToIndex(size)].hunkSize && ptr in allocators[SizeToIndex(size)].inUse
      ensures size <= SmallChunkMaxBytes && old(|allocators|) != 0 ==>
        allocators == old(allocators) && ptr !in old(allocators[SizeToIndex(size)].inUse) &&
        allocators[SizeToIndex(size)].inUse == old(allocators[SizeToIndex(size)].inUse) + {ptr}
    {
      if size > SmallChunkMaxBytes {
        return mallocResult;
      }
      var which := SizeToIndex(size);
      SizeClass(size);
      var c := SmallAllocator(which);
      ptr := c.Allocate(block);
    }

    /** Free(p, size): above 256 bytes p goes back to free(); a NULL small
        pointer is ignored; otherwise the chunk, which must be in use in the
        class for `size`, goes back on that class's free list. */
    method Free(p: int, size: int)
      requires Valid() && size >= 1
      requires size <= SmallChunkMaxBytes && p != 0 ==>
        |allocators| == SmallChunkCount && p in allocators[SizeToIndex(size)].inUse
      modifies if size <= SmallChunkMaxBytes && p != 0 then {allocators[SizeToIndex(size)]} else {}
      ensures Valid() && allocators == old(allocators)
      ensures size <= SmallChunkMaxBytes && p != 0 ==>
        var cls := allocators[SizeToIndex(size)];
        cls.free == [p] + old(cls.free) && cls.inUse == old(cls.inUse) - {p}
    {
      if size > SmallChunkMaxBytes {
        return;
      }
      if p == 0 {
        return;
      }
      var which := SizeToIndex(size);
      SizeClass(size);
      var c := allocators[which];
      c.Free(p);
    }

    /** Destroy(): destructs every class and forgets them; the next small
        request builds them again. */
    method Destroy()
      requires Valid()
      modifies this, allocators
      ensures Valid() && allocators == []
      ensures forall i :: 0 <= i < old(|allocators|) ==>
        old(allocators[i]).hunks == [] && old(allocators[i]).free == [] && old(allocators[i]).inUse == {}
    {
      if |allocators| == 0 {
        return;
      }
      var i := 0;
      while i < SmallChunkCount
        invariant 0 <= i <= SmallChunkCount && |allocators| == SmallChunkCount && allocators == old(allocators)
        invariant forall j :: 0 <= j < i ==> allocators[j].hunks == [] && allocators[j].free == [] && allocators[j].inUse == {}
        invariant forall j :: 0 <= j < SmallChunkCount ==> allocators[j].Valid() && allocators[j].hunkSize == IndexToSize(j)
        modifies allocators
      {
        var released := allocators[i].Destruct();
        i := i + 1;
      }
      allocators := [];
    }
  }
}
