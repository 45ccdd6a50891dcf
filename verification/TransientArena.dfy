/** TransientBufferArena: bump allocation inside chunks leased from the heap, returned all at once. */
module TransientArena {
  import Arithmetic
  import opened TransientHeap
  import opened TransientPages

  datatype ArenaDesc = ArenaDesc(initialChunkSize: nat, maxChunkSize: nat)

  /** A range of the page's buffer and of its mapped memory. */
  datatype Allocation = Allocation(page: nat, offset: nat, size: nat)

  predicate Inside(a: Allocation, c: Chunk) {
    a.page == c.page && c.offset <= a.offset && a.offset + a.size <= c.offset + c.size
  }

  /** The allocation ends where the bump offset of the chunk is now. */
  predicate EndsAt(a: Allocation, c: Chunk, currentOffset: nat) {
    a.page == c.page && a.offset + a.size == c.offset + currentOffset
  }

  predicate Disjoint(a: Allocation, b: Allocation) {
    a.page != b.page || a.offset + a.size <= b.offset || b.offset + b.size <= a.offset
  }

  /** The allocation lies in a chunk and, if that is the last one, below the bump offset. */
  ghost predicate Placed(chunks: seq<Chunk>, currentOffset: nat, a: Allocation) {
    exists k :: 0 <= k < |chunks| && Inside(a, chunks[k])
      && (k == |chunks| - 1 ==> a.offset + a.size <= chunks[k].offset + currentOffset)
  }

  function UsedBytes(allocations: seq<Allocation>): nat {
    if allocations == [] then 0 else UsedBytes(allocations[..|allocations| - 1]) + allocations[|allocations| - 1].size
  }

  ghost predicate AllocationsOk(alignment: nat, chunks: seq<Chunk>, currentOffset: nat, allocations: seq<Allocation>)
    requires alignment > 0
  {
    && (chunks != [] ==> currentOffset <= chunks[|chunks| - 1].size)
    && (forall i :: 0 <= i < |allocations| ==>
          allocations[i].size > 0 && allocations[i].offset % alignment == 0
          && Placed(chunks, currentOffset, allocations[i]))
    && (forall i, j :: 0 <= i < j < |allocations| ==> Disjoint(allocations[i], allocations[j]))
  }

  predicate ChunksApart(chunks: seq<Chunk>, alignment: nat)
    requires alignment > 0
  {
    && (forall k, l :: 0 <= k < l < |chunks| ==> Apart(chunks[k], chunks[l]))
    && (forall k :: 0 <= k < |chunks| ==> chunks[k].offset % alignment == 0)
  }

  /** A new chunk takes the place of the last one; what has been allocated stays where it is. */
  lemma NewChunk(alignment: nat, chunks: seq<Chunk>, currentOffset: nat, allocations: seq<Allocation>, c: Chunk)
    requires alignment > 0 && AllocationsOk(alignment, chunks, currentOffset, allocations)
    ensures AllocationsOk(alignment, chunks + [c], 0, allocations)
  {
    forall i | 0 <= i < |allocations| ensures Placed(chunks + [c], 0, allocations[i]) {
      assert Placed(chunks, currentOffset, allocations[i]);
      var k :| 0 <= k < |chunks| && Inside(allocations[i], chunks[k]);
      assert Inside(allocations[i], (chunks + [c])[k]);
    }
  }

  /** One more allocation at the bump offset of the last chunk. */
  lemma OneMore(alignment: nat, chunks: seq<Chunk>, currentOffset: nat, allocations: seq<Allocation>, offset: nat,
                size: nat)
    requires alignment > 0 && AllocationsOk(alignment, chunks, currentOffset, allocations)
    requires ChunksApart(chunks, alignment)
    requires chunks != [] && currentOffset <= offset && offset % alignment == 0 && size > 0
    requires offset + size <= chunks[|chunks| - 1].size
    ensures var last := chunks[|chunks| - 1];
      AllocationsOk(alignment, chunks, offset + size, allocations + [Allocation(last.page, last.offset + offset, size)])
  {
    var n := |chunks| - 1;
    var last := chunks[n];
    var a := Allocation(last.page, last.offset + offset, size);
    var more := allocations + [a];
    Arithmetic.SumOfMultiples(last.offset, offset, alignment);
    assert Inside(a, chunks[n]);
    forall i | 0 <= i < |allocations|
      ensures Placed(chunks, offset + size, allocations[i]) && Disjoint(allocations[i], a)
    {
      assert Placed(chunks, currentOffset, allocations[i]);
      var k :| 0 <= k < |chunks| && Inside(allocations[i], chunks[k])
               && (k == |chunks| - 1 ==>
                     allocations[i].offset + allocations[i].size <= chunks[k].offset + currentOffset);
      if k < n {
        assert Apart(chunks[k], chunks[n]);
      }
    }
    forall i, j | 0 <= i < j < |more| ensures Disjoint(more[i], more[j]) {
      if j < |allocations| {
        assert Disjoint(allocations[i], allocations[j]);
      }
    }
  }

  /** An owner's chunks are apart and aligned. */
  lemma OwnedChunksApart(desc: HeapDesc, pages: seq<Page>, live: seq<Lease>, owner: nat)
    requires DescOk(desc) && LeasesOk(desc, pages, live)
    ensures ChunksApart(OwnedBy(live, owner), desc.alignment)
    ensures forall k :: 0 <= k < |OwnedBy(live, owner)| ==> Housed(desc, pages, OwnedBy(live, owner)[k])
  {
    hide OwnedBy, Position;
    var chunks := OwnedBy(live, owner);
    forall k | 0 <= k < |chunks| ensures Housed(desc, pages, chunks[k]) && chunks[k].offset % desc.alignment == 0 {
      assert Housed(desc, pages, live[Position(live, owner, k)].chunk);
    }
    forall k, l | 0 <= k < l < |chunks| ensures Apart(chunks[k], chunks[l]) {
      OwnedApart(desc, pages, live, owner, k, owner, l);
    }
  }

  lemma ChunksOf(heap: Heap, owner: nat)
    requires heap.Valid()
    ensures ChunksApart(OwnedBy(heap.live, owner), heap.desc.alignment)
    ensures forall k :: 0 <= k < |OwnedBy(heap.live, owner)| ==>
      Housed(heap.desc, heap.pages, OwnedBy(heap.live, owner)[k])
  {
    OwnedChunksApart(heap.desc, heap.pages, heap.live, owner);
  }

  class Arena {
    const heap: Heap
    const desc: ArenaDesc
    /** Names the arena among the heap's leases. */
    ghost const id: nat
    var chunks: seq<Chunk>
    var currentChunkOffset: nat
    var nextChunkSize: nat
    var used: nat
    /** What has been allocated since the last reset. */
    ghost var allocations: seq<Allocation>

    ghost predicate Valid()
      reads this, heap
    {
      && heap.Valid() && Own()
      && chunks == OwnedBy(heap.live, id)
    }

    /** The arena's own part of the invariant. */
    ghost predicate Own()
      reads this
    {
      && DescOk(heap.desc) && 0 < desc.initialChunkSize <= desc.maxChunkSize <= heap.desc.maxPageSize
      && desc.initialChunkSize <= nextChunkSize <= desc.maxChunkSize
      && AllocationsOk(heap.desc.alignment, chunks, currentChunkOffset, allocations)
      && used == UsedBytes(allocations)
    }

    constructor (heap: Heap, desc: ArenaDesc, ghost id: nat)
      requires heap.Valid() && OwnedBy(heap.live, id) == []
      requires 0 < desc.initialChunkSize <= desc.maxChunkSize <= heap.desc.maxPageSize
      ensures Valid() && this.heap == heap && this.desc == desc && this.id == id && allocations == []
    {
      this.heap, this.desc, this.id := heap, desc, id;
      chunks, currentChunkOffset, nextChunkSize, used := [], 0, desc.initialChunkSize, 0;
      allocations := [];
    }

    /** reset: every chunk goes back to the heap. */
    method Reset()
      requires Valid()
      modifies this, heap
      ensures Valid() && allocations == [] && chunks == [] && used == 0 && nextChunkSize == desc.initialChunkSize
      ensures forall o :: o != id ==> OwnedBy(heap.live, o) == OwnedBy(old(heap.live), o)
      ensures old(chunks) != [] ==>
        var returned := ReturnAll(old(heap.pages), old(chunks), old(heap.serial));
        heap.serial == returned.1 && exists evicted :: Trimmed(heap.desc, returned.0, heap.pages, evicted)
    {
      hide OwnedBy, HeapOk, NextPageSize, TransientPages.Total, LeasedBytes, ReturnAll, Trimmed;
      heap.Free(chunks, id);
      chunks, currentChunkOffset, nextChunkSize, used, allocations := [], 0, desc.initialChunkSize, 0, [];
    }

    /** The aligned size fits behind what the last chunk holds. */
    predicate FitsLast(alignedSize: nat)
      reads this
      requires DescOk(heap.desc)
    {
      && chunks != []
      && Arithmetic.CalcAligned(currentChunkOffset, heap.desc.alignment) + alignedSize <= chunks[|chunks| - 1].size
    }

    /** When a request succeeds. */
    ghost predicate Serves(size: Arithmetic.Size, createOk: bool)
      reads this, heap
      requires DescOk(heap.desc) && nextChunkSize < Arithmetic.SIZE_LIMIT
    {
      var alignedSize := AlignAllocationSize(heap.desc, size);
      var chunkSize := AlignAllocationSize(heap.desc, Arithmetic.Max(alignedSize, nextChunkSize));
      && 0 < size <= heap.desc.maxPageSize && alignedSize <= heap.desc.maxPageSize
      && (FitsLast(alignedSize)
          || (chunkSize <= heap.desc.maxPageSize
              && (Served(heap.desc, heap.pages, heap.currentPage, chunkSize) || createOk)))
    }

    /** allocate: behind the last allocation of the last chunk or, if it does not fit, in a new chunk. */
    method Allocate(size: Arithmetic.Size, createOk: bool) returns (result: Result, allocation: Allocation)
      requires Valid()
      modifies this, heap
      ensures Valid()
      ensures size == 0 <==> result == InvalidArg
      ensures result == Ok <==> old(Serves(size, createOk))
      ensures result == Ok ==> allocations == old(allocations) + [allocation]
                               && allocation.size == AlignAllocationSize(heap.desc, size)
                               && used == old(used) + allocation.size
      ensures result == Ok ==> chunks != [] && EndsAt(allocation, chunks[|chunks| - 1], currentChunkOffset)
      ensures result == Ok && old(FitsLast(AlignAllocationSize(heap.desc, size))) ==>
        && currentChunkOffset
           == Arithmetic.CalcAligned(old(currentChunkOffset), heap.desc.alignment) + allocation.size
        && chunks == old(chunks) && nextChunkSize == old(nextChunkSize)
        && heap.pages == old(heap.pages) && heap.live == old(heap.live)
      ensures result == Ok && !old(FitsLast(AlignAllocationSize(heap.desc, size))) ==>
        && currentChunkOffset == allocation.size
        && var chunkSize := Arithmetic.Max(allocation.size, old(nextChunkSize));
           |chunks| == |old(chunks)| + 1 && chunks[..|old(chunks)|] == old(chunks)
           && chunks[|old(chunks)|].size == AlignAllocationSize(heap.desc, chunkSize)
           && nextChunkSize == if chunkSize <= desc.maxChunkSize then Arithmetic.Min(2 * chunkSize, desc.maxChunkSize)
                               else old(nextChunkSize)
      ensures result != Ok ==> allocations == old(allocations) && used == old(used) && heap.live == old(heap.live)
      ensures result != Ok ==> chunks == old(chunks) && currentChunkOffset == old(currentChunkOffset)
                               && nextChunkSize == old(nextChunkSize)
      ensures forall o :: o != id ==> OwnedBy(heap.live, o) == OwnedBy(old(heap.live), o)
    {
      hide OwnedBy, AllocationsOk, Served, Chosen, HeapOk, NextPageSize, TransientPages.Total, LeasedBytes;
      allocation := Allocation(0, 0, 0);
      if size == 0 {
        return InvalidArg, allocation;
      }
      if size > heap.desc.maxPageSize {
        return Fail, allocation;
      }
      var alignedSize := AlignAllocationSize(heap.desc, size);
      if alignedSize > heap.desc.maxPageSize {
        return Fail, allocation;
      }
      var allocationOffset :=
        if chunks == [] then 0 else Arithmetic.CalcAligned(currentChunkOffset, heap.desc.alignment);
      if chunks == [] || allocationOffset > chunks[|chunks| - 1].size
         || alignedSize > chunks[|chunks| - 1].size - allocationOffset
      {
        result := AddChunk(alignedSize, createOk);
        if result != Ok {
          return;
        }
        allocationOffset := 0;
      }
      allocation := Bump(allocationOffset, alignedSize);
      return Ok, allocation;
    }

    method Bump(allocationOffset: nat, alignedSize: nat) returns (allocation: Allocation)
      requires Valid() && chunks != [] && alignedSize > 0 && currentChunkOffset <= allocationOffset
      requires allocationOffset % heap.desc.alignment == 0
      requires allocationOffset + alignedSize <= chunks[|chunks| - 1].size
      modifies this`currentChunkOffset, this`used, this`allocations
      ensures Valid() && allocations == old(allocations) + [allocation]
      ensures allocation == Allocation(chunks[|chunks| - 1].page, chunks[|chunks| - 1].offset + allocationOffset,
                                       alignedSize)
      ensures used == old(used) + alignedSize && currentChunkOffset == allocationOffset + alignedSize
    {
      hide OwnedBy, AllocationsOk, HeapOk, NextPageSize, TransientPages.Total, LeasedBytes;
      var chunk := chunks[|chunks| - 1];
      ChunksOf(heap, id);
      OneMore(heap.desc.alignment, chunks, currentChunkOffset, allocations, allocationOffset, alignedSize);
      allocation := Allocation(chunk.page, chunk.offset + allocationOffset, alignedSize);
      currentChunkOffset := allocationOffset + alignedSize;
      used := used + alignedSize;
      assert (allocations + [allocation])[..|allocations|] == allocations;
      allocations := allocations + [allocation];
    }

    /** A new chunk, and a larger one next time. */
    method AddChunk(alignedSize: nat, createOk: bool) returns (result: Result)
      requires Valid() && 0 < alignedSize <= heap.desc.maxPageSize
      modifies this`chunks, this`currentChunkOffset, this`nextChunkSize, heap
      ensures Valid()
      ensures var chunkSize := AlignAllocationSize(heap.desc, Arithmetic.Max(alignedSize, old(nextChunkSize)));
        result == Ok <==> chunkSize <= heap.desc.maxPageSize
                          && (Served(heap.desc, old(heap.pages), old(heap.currentPage), chunkSize) || createOk)
      ensures result == Ok ==> chunks != [] && alignedSize <= chunks[|chunks| - 1].size && currentChunkOffset == 0
      ensures result == Ok ==> var chunkSize := Arithmetic.Max(alignedSize, old(nextChunkSize));
        |chunks| == |old(chunks)| + 1 && chunks[..|old(chunks)|] == old(chunks)
        && chunks[|old(chunks)|].size == AlignAllocationSize(heap.desc, chunkSize)
        && nextChunkSize == if chunkSize <= desc.maxChunkSize then Arithmetic.Min(2 * chunkSize, desc.maxChunkSize)
                            else old(nextChunkSize)
      ensures result != Ok ==> chunks == old(chunks) && currentChunkOffset == old(currentChunkOffset)
                               && nextChunkSize == old(nextChunkSize)
      ensures result != InvalidArg && (result != Ok ==> heap.live == old(heap.live))
      ensures forall o :: o != id ==> OwnedBy(heap.live, o) == OwnedBy(old(heap.live), o)
    {
      hide OwnedBy, AllocationsOk, Served, Chosen, HeapOk, NextPageSize, TransientPages.Total, LeasedBytes;
      var chunkSize := Arithmetic.Max(alignedSize, nextChunkSize);
      var chunk;
      result, chunk := heap.Allocate(chunkSize, createOk, id);
      if result != Ok {
        return;
      }
      NewChunk(heap.desc.alignment, chunks, currentChunkOffset, allocations, chunk);
      forall o ensures OwnedBy(heap.live, o) == OwnedBy(old(heap.live), o) + if id == o then [chunk] else [] {
        LeaseMore(old(heap.live), Lease(id, chunk), 0, o);
      }
      chunks, currentChunkOffset := chunks + [chunk], 0;
      if chunkSize <= desc.maxChunkSize {
        var grownChunkSize := if chunkSize > desc.maxChunkSize / 2 then desc.maxChunkSize else chunkSize * 2;
        nextChunkSize := Arithmetic.Max(nextChunkSize, grownChunkSize);
      }
    }
  }

  // ---------- Any number of arenas ----------

  /** An allocation lies in the used part of a page of the heap, aligned. */
  ghost predicate InPage(desc: HeapDesc, pages: seq<Page>, a: Allocation)
    requires DescOk(desc)
  {
    a.size > 0 && a.offset % desc.alignment == 0
    && exists i :: 0 <= i < |pages| && pages[i].id == a.page
                   && a.offset + a.size <= pages[i].nextOffset <= pages[i].capacity
  }

  lemma AllocationInPage(a: Arena, i: nat)
    requires a.Valid() && i < |a.allocations|
    ensures InPage(a.heap.desc, a.heap.pages, a.allocations[i])
  {
    hide OwnedBy;
    ChunksOf(a.heap, a.id);
    assert Placed(a.chunks, a.currentChunkOffset, a.allocations[i]);
    var k :| 0 <= k < |a.chunks| && Inside(a.allocations[i], a.chunks[k]);
    assert Housed(a.heap.desc, a.heap.pages, a.chunks[k]);
    var m :| 0 <= m < |a.heap.pages| && Within(a.heap.desc, a.chunks[k], a.heap.pages[m]);
    assert PageOk(a.heap.desc, a.heap.live, a.heap.pages[m]);
  }

  /** No allocation of one arena ever overlaps another, of its own or of any other arena of the heap. */
  lemma AllocationsApart(a: Arena, i: nat, b: Arena, j: nat)
    requires a.Valid() && b.Valid() && a.heap == b.heap
    requires i < |a.allocations| && j < |b.allocations| && (a.id != b.id || (a == b && i != j))
    ensures Disjoint(a.allocations[i], b.allocations[j])
  {
    hide OwnedBy;
    if a != b {
      assert Placed(a.chunks, a.currentChunkOffset, a.allocations[i]);
      assert Placed(b.chunks, b.currentChunkOffset, b.allocations[j]);
      var k :| 0 <= k < |a.chunks| && Inside(a.allocations[i], a.chunks[k]);
      var l :| 0 <= l < |b.chunks| && Inside(b.allocations[j], b.chunks[l]);
      OwnedApart(a.heap.desc, a.heap.pages, a.heap.live, a.id, k, b.id, l);
    } else if j < i {
      assert Disjoint(a.allocations[j], a.allocations[i]);
    }
  }

  /** No allocation of one arena overlaps one of the other; for an arena and itself, another one. */
  ghost predicate AllDisjoint(a: Arena, b: Arena)
    reads a, b
  {
    forall i, j :: 0 <= i < |a.allocations| && 0 <= j < |b.allocations| && (a.id != b.id || i != j) ==>
      Disjoint(a.allocations[i], b.allocations[j])
  }

  datatype Op = AllocateOp(arena: nat, size: Arithmetic.Size, createOk: bool) | ResetOp(arena: nat)

  ghost predicate AllValid(heap: Heap, arenas: seq<Arena>)
    reads heap, arenas
  {
    && heap.Valid()
    && (forall i :: 0 <= i < |arenas| ==> arenas[i].heap == heap && arenas[i].id == i && arenas[i].Valid())
  }

  /** Calls of many arenas in any order: in every state reached every live allocation is in place and apart. */
  method Interleave(heap: Heap, arenas: seq<Arena>, script: seq<Op>)
    requires AllValid(heap, arenas)
    requires forall k :: 0 <= k < |script| ==> script[k].arena < |arenas|
    modifies heap, arenas
    ensures AllValid(heap, arenas)
    ensures forall a, i :: 0 <= a < |arenas| && 0 <= i < |arenas[a].allocations| ==>
      InPage(heap.desc, heap.pages, arenas[a].allocations[i])
    ensures forall a, b :: 0 <= a < |arenas| && 0 <= b < |arenas| ==> AllDisjoint(arenas[a], arenas[b])
  {
    hide OwnedBy, AllocationsOk, HeapOk, NextPageSize, TransientPages.Total, LeasedBytes, UsedBytes;
    for k := 0 to |script|
      invariant AllValid(heap, arenas)
    {
      var op := script[k];
      var arena := arenas[op.arena];
      assert forall i :: 0 <= i < |arenas| && i != op.arena ==> arenas[i] != arena;
      match op {
        case AllocateOp(_, size, createOk) =>
          var result, allocation := arena.Allocate(size, createOk);
        case ResetOp(_) =>
          arena.Reset();
      }
    }
    forall a, i | 0 <= a < |arenas| && 0 <= i < |arenas[a].allocations|
      ensures InPage(heap.desc, heap.pages, arenas[a].allocations[i])
    {
      AllocationInPage(arenas[a], i);
    }
    forall a, b | 0 <= a < |arenas| && 0 <= b < |arenas| ensures AllDisjoint(arenas[a], arenas[b]) {
      forall i, j | 0 <= i < |arenas[a].allocations| && 0 <= j < |arenas[b].allocations| && (a != b || i != j)
        ensures Disjoint(arenas[a].allocations[i], arenas[b].allocations[j])
      {
        AllocationsApart(arenas[a], i, arenas[b], j);
      }
    }
  }

  // ---------- Rounding ----------

  /** Rounding makes no request too large exactly if the largest page is a multiple of the granularity. */
  lemma RoundingFits(desc: HeapDesc)
    requires DescOk(desc)
    ensures (forall size: Arithmetic.Size :: size <= desc.maxPageSize ==>
               AlignAllocationSize(desc, size) <= desc.maxPageSize)
       <==> desc.maxPageSize % desc.granularity == 0
  {
    var max: Arithmetic.Size := desc.maxPageSize;
    assert AlignAllocationSize(desc, max) >= max;
    if max % desc.granularity == 0 {
      forall size: Arithmetic.Size | size <= max ensures AlignAllocationSize(desc, size) <= max {
        Arithmetic.CalcAlignedLeast(size, desc.granularity, max);
      }
    }
  }

  /**
   Otherwise a small request can fail for the size of the chunk that the arena asks for on its behalf: the request of
   one byte rounds to no more than the largest page, and a page could be created.
   */
  method RoundedChunkTooLarge() returns (heap: Heap, result: Result)
    ensures DescOk(heap.desc) && AlignAllocationSize(heap.desc, 1) <= heap.desc.maxPageSize
    ensures result == Fail
  {
    hide HeapOk, NextPageSize, TransientPages.Total, AllocationsOk;
    heap := new Heap(HeapDesc(1000, 1000, 0, 256, 256));
    var arena := new Arena(heap, ArenaDesc(1000, 1000), 0);
    var allocation;
    result, allocation := arena.Allocate(1, true);
  }
}
