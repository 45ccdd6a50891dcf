/**
 The staging heap: pages of buffers, allocation over pages in an arbitrary order, recycling of empty pages and
 locking of pages to threads. Creating and mapping a buffer are outcomes supplied by the caller.
 */
module StagingHeap {
  import Arithmetic
  import opened NodeList
  import opened StagingPage
  import opened Wrappers

  datatype Error = InvalidArg | CreateFailed | MapFailed | UnmapFailed | AssertFailed

  datatype Result<+T> = Ok(value: T) | Err(error: Error)

  /** A block: the node at this offset of this page. */
  datatype Allocation = Allocation(page: int, offset: nat)

  /** What map hands out: a place in the mapping of a page, or an offset from the null pointer. */
  datatype Address = InPage(page: int, offset: nat) | FromNull(offset: nat)

  const GRANULARITY: nat := 1024

  // ---------- Totals over pages ----------

  ghost function Total(m: map<int, nat>): nat
  {
    if exists k :: k in m then (var k :| k in m; m[k] + Total(m - {k})) else 0
  }

  lemma {:induction false} TotalRemove(m: map<int, nat>, k: int)
    requires k in m
    ensures Total(m) == m[k] + Total(m - {k})
    decreases |m|
  {
    var p :| p in m && Total(m) == m[p] + Total(m - {p});
    if p != k {
      TotalRemove(m - {p}, k);
      TotalRemove(m - {k}, p);
      assert m - {p} - {k} == m - {k} - {p};
    }
  }

  lemma TotalUpdate(m: map<int, nat>, k: int, v: nat)
    ensures Total(m[k := v]) == Total(m - {k}) + v
    ensures k in m ==> Total(m[k := v]) == Total(m) - m[k] + v
    ensures k !in m ==> Total(m[k := v]) == Total(m) + v
  {
    TotalRemove(m[k := v], k);
    assert m[k := v] - {k} == m - {k};
    if k in m {
      TotalRemove(m, k);
    } else {
      assert m - {k} == m;
    }
  }

  /** A page in this state, if the lock may use it, has an aligned free range of the size. */
  ghost predicate Offers(nodes: seq<Node>, capacity: nat, locked: ThreadId, size: nat, alignment: nat, lock: ThreadId)
    requires alignment > 0
  {
    (locked == NO_THREAD || locked == lock) && exists o :: Candidate(nodes, capacity, size, alignment, o)
  }

  lemma CandidateAligned(nodes: seq<Node>, capacity: nat, size: nat, alignment: nat, offset: nat)
    requires alignment > 0 && Candidate(nodes, capacity, size, alignment, offset)
    ensures offset % alignment == 0
  {
  }

  /** An empty page that is large enough serves any request, whatever the alignment. */
  lemma EmptyOffers(nodes: seq<Node>, capacity: nat, size: nat, alignment: nat, lock: ThreadId)
    requires Tiles(nodes, 0, capacity) && LiveSize(nodes) == 0 && size <= capacity && alignment > 0
    ensures Offers(nodes, capacity, NO_THREAD, size, alignment, lock) && Candidate(nodes, capacity, size, alignment, 0)
  {
    LiveSizeZero(nodes);
    assert Candidate(nodes, capacity, size, alignment, 0);
  }

  class Heap {
    const pageSize: nat
    const keepPagesMapped: bool
    var pages: map<int, Page>
    var totalCapacity: nat
    var totalUsed: nat
    var nextPageId: int
    /** Which thread made each live allocation. */
    ghost var owner: map<Allocation, ThreadId>
    /** Whether mapping succeeded, for every page that was ever added to a heap that keeps its pages mapped. */
    ghost var mapResult: map<int, bool>

    ghost function UsedBy(): map<int, nat>
      reads this, pages.Values
    {
      map id | id in pages :: pages[id].used
    }

    ghost function CapacityBy(): map<int, nat>
      reads this
    {
      map id | id in pages :: pages[id].capacity
    }

    /** Every live block, page by page. */
    ghost function LiveBlocks(): set<(int, Node)>
      reads this, pages.Values
    {
      set id, n | id in pages && n in Live(pages[id].nodes) :: (id, n)
    }

    ghost predicate IsLive(a: Allocation)
      reads this, pages.Values
    {
      a.page in pages && exists n :: n in Live(pages[a.page].nodes) && n.offset == a.offset
    }

    ghost predicate ValidPages()
      reads this, pages.Values
    {
      forall id :: id in pages ==> pages[id].Valid() && pages[id].id == id && id < nextPageId
    }

    /** With pages kept mapped, a page is mapped exactly if its own mapping succeeded. */
    ghost predicate MappedOnce()
      reads this, pages.Values
    {
      && (forall id :: id in mapResult ==> id < nextPageId)
      && (keepPagesMapped ==> forall id :: id in pages ==> id in mapResult && pages[id].mapped == mapResult[id])
    }

    ghost predicate AllMapped()
      reads this, pages.Values
    {
      forall id :: id in pages ==> pages[id].mapped
    }

    /**
     With pages kept mapped, all of them are mapped exactly if no mapping has failed for a page that is still there.
     */
    lemma AllMappedExactly()
      requires Valid() && keepPagesMapped
      ensures AllMapped() <==> forall id :: id in pages && id in mapResult ==> mapResult[id]
    {
    }

    ghost predicate ThreadsLocked()
      reads this, pages.Values
    {
      && (forall a :: a in owner <==> IsLive(a))
      && (keepPagesMapped ==> forall id :: id in pages ==> pages[id].lockedToThread == NO_THREAD)
      && (!keepPagesMapped ==> forall a :: a in owner && a.page in pages ==>
            owner[a] == pages[a.page].lockedToThread && owner[a] != NO_THREAD)
    }

    ghost predicate Valid()
      reads this, pages.Values
    {
      && ValidPages()
      && totalUsed == Total(UsedBy())
      && totalCapacity == Total(CapacityBy())
      && ThreadsLocked()
      && MappedOnce()
    }

    ghost predicate IsEmpty(id: int)
      reads this, pages.Values
    {
      id in pages && pages[id].used == 0
    }

    /** Apart from one page, at most one page is kept without allocations, and it has the standard size. */
    ghost predicate RecycledBut(id: int)
      reads this, pages.Values
    {
      && (forall e :: e != id && IsEmpty(e) ==> pages[e].capacity == pageSize)
      && (forall e, e' :: e != id && e' != id && IsEmpty(e) && IsEmpty(e') ==> e == e')
    }

    /** At most one page is kept without allocations, and it has the standard size. */
    ghost predicate Recycled()
      reads this, pages.Values
    {
      && (forall e :: IsEmpty(e) ==> pages[e].capacity == pageSize)
      && (forall e, e' :: IsEmpty(e) && IsEmpty(e') ==> e == e')
    }

    constructor (pageSize: nat, keepPagesMapped: bool)
      ensures Valid() && Recycled() && LiveBlocks() == {} && pages == map[]
      ensures this.pageSize == pageSize && this.keepPagesMapped == keepPagesMapped && nextPageId == 1
    {
      this.pageSize := pageSize;
      this.keepPagesMapped := keepPagesMapped;
      pages, totalCapacity, totalUsed, nextPageId := map[], 0, 0, 1;
      owner, mapResult := map[], map[];
      new;
      assert UsedBy() == map[] && CapacityBy() == map[];
    }

    /**
     The least multiple of the granularity that is not below the value. If that does not fit 64 bits the sum wraps
     around, and what is left of it is rounded down to nothing.
     */
    function AlignAllocationSize(value: Arithmetic.Size): (r: Arithmetic.Size)
      ensures r % 1024 == 0
      ensures if value <= Arithmetic.SIZE_LIMIT - 1024 then value <= r < value + 1024 else r == 0
      ensures r == 0 <==> value == 0 || value > Arithmetic.SIZE_LIMIT - 1024
    {
      (value + GRANULARITY - 1) % Arithmetic.SIZE_LIMIT / GRANULARITY * GRANULARITY
    }

    /** The thread a page gets locked to. */
    function LockFor(thread: ThreadId): ThreadId {
      if keepPagesMapped then NO_THREAD else thread
    }

    ghost predicate Usable(id: int, lock: ThreadId)
      reads this, pages.Values
      requires id in pages
    {
      pages[id].lockedToThread == NO_THREAD || pages[id].lockedToThread == lock
    }

    /** Some page that this lock may use has an aligned free range of the size. */
    ghost predicate PageCandidate(id: int, size: nat, alignment: nat, lock: ThreadId)
      reads this, pages.Values
      requires alignment > 0
    {
      id in pages && Offers(pages[id].nodes, pages[id].capacity, pages[id].lockedToThread, size, alignment, lock)
    }

    /** Of all the places where the block fits in the page, it took the first, and the page is locked as asked. */
    twostate predicate FirstPlace(new id: int, new offset: nat, new size: nat, new alignment: nat, new lock: ThreadId)
      requires alignment > 0 && id in pages && old(id in pages)
      reads this, pages.Values
    {
      && Candidate(old(pages[id].nodes), pages[id].capacity, size, alignment, offset)
      && (forall o :: Candidate(old(pages[id].nodes), pages[id].capacity, size, alignment, o) ==> offset <= o)
      && pages[id].lockedToThread == lock && pages[id].used == old(pages[id].used) + size
    }

    /** The state after a successful allocation from one page. */
    twostate predicate Allocated(new id: int, new offset: nat, new size: nat, new alignment: nat, new metadata: int,
                                 new thread: ThreadId)
      requires alignment > 0 && id in pages && old(id in pages)
      reads this, pages.Values
    {
      && FirstPlace(id, offset, size, alignment, LockFor(thread)) && offset % alignment == 0
      && LiveBlocks() == old(LiveBlocks()) + {(id, Node(offset, size, false, metadata))}
      && totalUsed == old(totalUsed) + size && pages[id].used > 0
      && owner == old(owner)[Allocation(id, offset) := thread]
      && pages[id].mapped == old(pages[id].mapped) && mapResult == old(mapResult)
    }

    /** Allocates from one page and keeps the heap's totals in step. */
    method AllocFrom(id: int, size: nat, alignment: nat, metadata: int, thread: ThreadId) returns (res: Option<nat>)
      requires Valid() && id in pages && Usable(id, LockFor(thread))
      requires size > 0 && alignment > 0 && thread != NO_THREAD
      modifies this`totalUsed, this`owner, pages[id]
      ensures Valid() && (old(AllMapped()) ==> AllMapped())
      ensures res.None? ==> unchanged(this) && unchanged(pages[id])
      ensures res.None? ==> forall o :: !Candidate(pages[id].nodes, pages[id].capacity, size, alignment, o)
      ensures res.Some? ==> Allocated(id, res.value, size, alignment, metadata, thread)
      ensures old(exists o :: Candidate(pages[id].nodes, pages[id].capacity, size, alignment, o)) ==> res.Some?
    {
      hide Candidate, Total, LiveBlocks, ThreadsLocked, UsedBy, CapacityBy, IsLive, Live, Tiles, LiveSize;
      var page := pages[id];
      res := page.AllocNode(size, alignment, metadata, LockFor(thread));
      if res.Some? {
        CandidateAligned(old(page.nodes), page.capacity, size, alignment, res.value);
        totalUsed := totalUsed + size;
        owner := owner[Allocation(id, res.value) := thread];
        assert OthersUnchanged(id);
        TotalsChanged(id);
        BlocksAdded(id, Node(res.value, size, false, metadata));
        LocksAfterAlloc(id, Node(res.value, size, false, metadata), thread);
      }
    }

    twostate predicate Same(page: Page)
      reads page
    {
      page.nodes == old(page.nodes) && page.used == old(page.used) && page.lockedToThread == old(page.lockedToThread)
      && page.mapped == old(page.mapped)
    }

    twostate predicate OthersUnchanged(new id: int)
      reads this, pages.Values
    {
      pages == old(pages) && forall k :: k in pages && k != id ==> Same(pages[k])
    }

    /** Changing one page changes the totals by the difference of its use. */
    twostate lemma TotalsChanged(new id: int)
      requires id in pages && OthersUnchanged(id)
      ensures Total(UsedBy()) == old(Total(UsedBy())) - old(pages[id].used) + pages[id].used
      ensures CapacityBy() == old(CapacityBy())
    {
      var before, after := old(UsedBy())[id := pages[id].used], UsedBy();
      forall k | k in pages ensures after[k] == before[k] {
        assert k != id ==> Same(pages[k]);
      }
      assert after == before;
      TotalUpdate(old(UsedBy()), id, pages[id].used);
    }

    /** The new block belongs to the thread its page is now locked to, and so do the older ones. */
    twostate lemma LocksAfterAlloc(new id: int, new n: Node, new thread: ThreadId)
      requires old(Valid()) && id in pages && OthersUnchanged(id) && thread != NO_THREAD
      requires old(Usable(id, LockFor(thread))) && pages[id].lockedToThread == LockFor(thread)
      requires Live(pages[id].nodes) == old(Live(pages[id].nodes)) + {n}
      requires owner == old(owner)[Allocation(id, n.offset) := thread]
      ensures ThreadsLocked()
    {
      forall a ensures a in owner <==> IsLive(a) {
        assert a in old(owner) <==> old(IsLive(a));
        if a.page in pages && a.page != id {
          assert pages[a.page].nodes == old(pages[a.page].nodes);
        }
        if a == Allocation(id, n.offset) {
          assert n in Live(pages[id].nodes);
        } else if a.page == id {
          assert forall m :: m in Live(pages[id].nodes) && m.offset == a.offset <==>
                             m in old(Live(pages[id].nodes)) && m.offset == a.offset;
        }
      }
    }

    twostate lemma BlocksAdded(new id: int, new n: Node)
      requires id in pages && OthersUnchanged(id)
      requires Live(pages[id].nodes) == old(Live(pages[id].nodes)) + {n}
      ensures LiveBlocks() == old(LiveBlocks()) + {(id, n)}
    {
      forall k, m ensures (k, m) in LiveBlocks() <==> (k, m) in old(LiveBlocks()) || (k, m) == (id, n) {
        assert k in pages && k != id ==> pages[k].nodes == old(pages[k].nodes);
      }
    }

    /** Allocation only shrinks the set of empty pages. */
    twostate lemma StillRecycled(new id: int)
      requires old(Recycled()) && id in pages && OthersUnchanged(id) && pages[id].used > 0
      ensures Recycled()
    {
      forall k | IsEmpty(k) ensures old(IsEmpty(k)) {
        assert k != id ==> Same(pages[k]);
      }
    }

    /** A fresh page has joined the heap. */
    twostate predicate PageJoined(new page: Page)
      reads this, page, pages.Values
    {
      && old(nextPageId) !in old(pages) && page.id == old(nextPageId) && nextPageId == page.id + 1
      && pages == old(pages)[page.id := page] && fresh(page) && page.Valid() && page.used == 0
      && (forall k :: k in old(pages) ==> Same(pages[k]))
      && totalUsed == old(totalUsed) && totalCapacity == old(totalCapacity) + page.capacity && owner == old(owner)
      && (keepPagesMapped ==> mapResult == old(mapResult)[page.id := page.mapped])
      && (!keepPagesMapped ==> mapResult == old(mapResult) && !page.mapped)
    }

    twostate lemma JoinedTotals(new page: Page)
      requires old(Valid()) && PageJoined(page)
      ensures totalUsed == Total(UsedBy()) && totalCapacity == Total(CapacityBy())
    {
      var before, after := old(UsedBy())[page.id := 0], UsedBy();
      forall k | k in pages ensures after[k] == before[k] {
        assert k != page.id ==> Same(pages[k]);
      }
      assert after == before;
      assert CapacityBy() == old(CapacityBy())[page.id := page.capacity];
      TotalUpdate(old(UsedBy()), page.id, 0);
      TotalUpdate(old(CapacityBy()), page.id, page.capacity);
    }

    twostate lemma JoinedPages(new page: Page)
      requires old(Valid()) && PageJoined(page)
      ensures ValidPages() && MappedOnce()
      ensures page.mapped && old(AllMapped()) ==> AllMapped()
    {
      forall k | k in pages ensures pages[k].Valid() && pages[k].id == k && k < nextPageId {
        assert k != page.id ==> Same(pages[k]);
      }
    }

    twostate lemma JoinedLive(new page: Page)
      requires old(Valid()) && PageJoined(page)
      ensures LiveBlocks() == old(LiveBlocks()) && ThreadsLocked()
    {
      LiveSizeZero(page.nodes);
      forall k, n ensures (k, n) in LiveBlocks() <==> (k, n) in old(LiveBlocks()) {
        if k in old(pages) {
          assert pages[k].nodes == old(pages[k].nodes);
        }
      }
      forall a ensures a in owner <==> IsLive(a) {
        assert a in old(owner) <==> old(IsLive(a));
        if a.page in old(pages) {
          assert pages[a.page].nodes == old(pages[a.page].nodes);
        }
      }
    }

    twostate lemma AfterJoin(new page: Page)
      requires old(Valid()) && PageJoined(page)
      ensures Valid() && LiveBlocks() == old(LiveBlocks())
    {
      hide Total, UsedBy, CapacityBy, LiveBlocks, ThreadsLocked, MappedOnce, ValidPages, PageJoined;
      JoinedPages(page);
      JoinedTotals(page);
      JoinedLive(page);
    }

    lemma FreshId()
      requires ValidPages()
      ensures nextPageId !in pages
    {
      forall id | id in pages ensures id != nextPageId {
        assert pages[id].Valid();
      }
    }

    /**
     Creates a page for a request that no page can serve. Mapping it can fail after it has been added: then it stays,
     unmapped.
     */
    method AllocPage(size: nat, createOk: bool, mapOk: bool) returns (r: Result<int>)
      requires Valid() && size > 0
      modifies this
      ensures Valid() && LiveBlocks() == old(LiveBlocks())
      ensures !createOk ==> r == Err(CreateFailed) && unchanged(this)
      ensures createOk ==> old(nextPageId) in pages && PageJoined(pages[old(nextPageId)])
                           && pages[old(nextPageId)].capacity == size
                           && pages[old(nextPageId)].mapped == (keepPagesMapped && mapOk)
      ensures createOk ==> r == if keepPagesMapped && !mapOk then Err(MapFailed) else Ok(old(nextPageId))
    {
      hide Total, UsedBy, CapacityBy, LiveBlocks, ThreadsLocked, MappedOnce, ValidPages;
      if !createOk {
        return Err(CreateFailed);
      }
      FreshId();
      var page, mapped := AddPage(size, mapOk);
      AfterJoin(page);
      return if mapped then Ok(page.id) else Err(MapFailed);
    }

    /** Adds an empty page and, when pages are kept mapped, maps it. */
    method AddPage(size: nat, mapOk: bool) returns (page: Page, ok: bool)
      requires size > 0 && nextPageId !in pages
      modifies this
      ensures PageJoined(page) && page.capacity == size
      ensures page.mapped == (keepPagesMapped && mapOk) && ok == (keepPagesMapped ==> mapOk)
    {
      hide Tiles, LiveSize;
      page := new Page(nextPageId, size);
      pages := pages[nextPageId := page];
      nextPageId := nextPageId + 1;
      totalCapacity := totalCapacity + size;
      ok := true;
      if keepPagesMapped {
        ok := page.Map(mapOk);
        mapResult := mapResult[page.id := ok];
      }
    }

    /** One turn of the scan: try a page unless it is locked to another thread. */
    method TryPage(id: int, size: nat, alignment: nat, metadata: int, thread: ThreadId) returns (res: Option<nat>)
      requires Valid() && id in pages && size > 0 && alignment > 0 && thread != NO_THREAD
      modifies this`totalUsed, this`owner, pages[id]
      ensures Valid() && (old(Recycled()) ==> Recycled()) && (old(AllMapped()) ==> AllMapped())
      ensures res.None? ==> unchanged(this) && unchanged(pages[id])
      ensures res.None? ==> !PageCandidate(id, size, alignment, LockFor(thread))
      ensures res.Some? ==> old(PageCandidate(id, size, alignment, LockFor(thread)))
      ensures res.Some? ==> Allocated(id, res.value, size, alignment, metadata, thread)
    {
      hide Tiles, Live, LiveSize;
      res := None;
      if pages[id].lockedToThread == NO_THREAD || pages[id].lockedToThread == LockFor(thread) {
        res := AllocFrom(id, size, alignment, metadata, thread);
        hide Candidate, LiveBlocks, Total, ThreadsLocked;
        if res.Some? {
          assert OthersUnchanged(id);
          if old(Recycled()) {
            StillRecycled(id);
          }
        }
      }
    }

    /** The page table yields every page, in an order that nothing else depends on. */
    ghost predicate Yields(order: seq<int>)
      reads this
    {
      (forall id :: id in order <==> id in pages) && forall i, j :: 0 <= i < j < |order| ==> order[i] != order[j]
    }

    twostate lemma NothingChanged()
      requires pages == old(pages) && forall k :: k in pages ==> Same(pages[k])
      ensures LiveBlocks() == old(LiveBlocks())
    {
      forall k, n ensures (k, n) in LiveBlocks() <==> (k, n) in old(LiveBlocks()) {
        if k in pages {
          assert pages[k].nodes == old(pages[k].nodes);
        }
      }
    }

    /** The first page in this order that can serve the request. */
    ghost predicate FirstPage(order: seq<int>, id: int, size: nat, alignment: nat, lock: ThreadId)
      reads this, pages.Values
      requires alignment > 0
    {
      exists i: nat :: i < |order| && order[i] == id && PageCandidate(id, size, alignment, lock)
                       && forall j :: 0 <= j < i ==> !PageCandidate(order[j], size, alignment, lock)
    }

    /** The scan over existing pages, in whatever order the page table yields them. */
    method ScanPages(order: seq<int>, size: nat, alignment: nat, metadata: int, thread: ThreadId)
      returns (res: Option<Allocation>)
      requires Valid() && Yields(order) && size > 0 && alignment > 0 && thread != NO_THREAD
      modifies this`totalUsed, this`owner, pages.Values
      ensures Valid() && (old(Recycled()) ==> Recycled()) && (old(AllMapped()) ==> AllMapped())
      ensures res.None? ==> unchanged(this) && forall id :: id in pages ==> Same(pages[id])
      ensures res.None? ==> forall id :: !PageCandidate(id, size, alignment, LockFor(thread))
      ensures res.None? ==> forall id :: !old(PageCandidate(id, size, alignment, LockFor(thread)))
      ensures res.Some? ==> res.value.page in pages
      ensures res.Some? ==> old(PageCandidate(res.value.page, size, alignment, LockFor(thread)))
      ensures res.Some? ==> old(FirstPage(order, res.value.page, size, alignment, LockFor(thread)))
      ensures res.Some? ==> Allocated(res.value.page, res.value.offset, size, alignment, metadata, thread)
    {
      hide Candidate, LiveBlocks, Total, ThreadsLocked, Recycled, Offers, ValidPages, UsedBy, CapacityBy;
      for i := 0 to |order|
        invariant unchanged(this) && Valid() && (old(Recycled()) ==> Recycled()) && (old(AllMapped()) ==> AllMapped())
        invariant forall id :: id in pages ==> Same(pages[id])
        invariant forall j :: 0 <= j < i ==> !PageCandidate(order[j], size, alignment, LockFor(thread))
        invariant forall j :: 0 <= j < i ==> !old(PageCandidate(order[j], size, alignment, LockFor(thread)))
      {
        NothingChanged();
        var id := order[i];
        assert id in pages && Same(pages[id]);
        var offset := TryPage(id, size, alignment, metadata, thread);
        if offset.Some? {
          return Some(Allocation(id, offset.value));
        }
      }
      return None;
    }

    /** A request is too big for a standard page, or no page that its thread may use can hold it. */
    ghost predicate NeedsPage(size: nat, alignment: nat, thread: ThreadId)
      reads this, pages.Values
      requires alignment > 0
    {
      size >= pageSize || forall id :: !PageCandidate(id, size, alignment, LockFor(thread))
    }

    /** If a page was needed and is now in use, at most one empty standard page is still kept. */
    twostate lemma RecycledAfterJoin(new id: int, new size: nat, new alignment: nat, new thread: ThreadId)
      requires old(Valid()) && old(Recycled()) && alignment > 0 && old(NeedsPage(size, alignment, thread))
      requires id !in old(pages) && id in pages && pages == old(pages)[id := pages[id]] && pages[id].used > 0
      requires forall k :: k in old(pages) ==> Same(pages[k])
      ensures Recycled()
    {
      forall k ensures IsEmpty(k) <==> old(IsEmpty(k)) {
        if k in old(pages) {
          assert Same(pages[k]);
        }
      }
      forall k | old(IsEmpty(k)) ensures size >= pageSize {
        if size <= pageSize {
          EmptyOffers(old(pages[k].nodes), old(pages[k]).capacity, size, alignment, LockFor(thread));
          assert old(PageCandidate(k, size, alignment, LockFor(thread)));
        }
      }
    }

    /**
     A page that could not be mapped stays behind, empty. That keeps the bound on empty pages exactly if it is the only
     one and of standard size.
     */
    twostate lemma RecycledAfterFailedMap(new id: int, new size: nat, new alignment: nat, new thread: ThreadId)
      requires old(Valid()) && old(Recycled()) && alignment > 0 && old(NeedsPage(size, alignment, thread))
      requires id !in old(pages) && id in pages && pages == old(pages)[id := pages[id]] && pages[id].used == 0
      requires pages[id].capacity == if size < pageSize then pageSize else size
      requires forall k :: k in old(pages) ==> Same(pages[k])
      ensures Recycled() <==> size < pageSize || (size == pageSize && forall e :: !old(IsEmpty(e)))
    {
      forall k | k in old(pages) ensures IsEmpty(k) <==> old(IsEmpty(k)) {
        assert Same(pages[k]);
      }
      forall k | old(IsEmpty(k)) ensures size >= pageSize {
        if size <= pageSize {
          EmptyOffers(old(pages[k].nodes), old(pages[k]).capacity, size, alignment, LockFor(thread));
          assert old(PageCandidate(k, size, alignment, LockFor(thread)));
        }
      }
      assert IsEmpty(id);
      assert forall k :: old(IsEmpty(k)) ==> k != id && IsEmpty(k);
    }

    /** The page whose mapping failed is still there, empty, and any request may be served from it. */
    ghost predicate LeftUnmapped(id: int)
      reads this, pages.Values
    {
      id in pages && pages[id].used == 0 && !pages[id].mapped && pages[id].capacity >= pageSize
    }

    lemma FirstNeedsPage(size: nat, alignment: nat, thread: ThreadId)
      requires pages == map[] && alignment > 0
      ensures NeedsPage(size, alignment, thread)
    {
    }

    lemma OwnedIsLive(a: Allocation)
      requires Valid()
      ensures a in owner <==> IsLive(a)
    {
    }

    lemma BlockIsLive(a: Allocation, n: Node)
      requires (a.page, n) in LiveBlocks() && n.offset == a.offset
      ensures IsLive(a)
    {
    }

    /**
     An empty page of the standard size or more serves every request below that size, so no page is created for it.
     */
    lemma EmptyServes(id: int, size: nat, alignment: nat, thread: ThreadId)
      requires Valid() && IsEmpty(id) && pages[id].capacity >= pageSize > size && alignment > 0
      ensures !NeedsPage(size, alignment, thread)
    {
      EmptyOffers(pages[id].nodes, pages[id].capacity, size, alignment, LockFor(thread));
      assert PageCandidate(id, size, alignment, LockFor(thread));
    }

    /** The block begins a page of its own, of the standard size or exactly as large as the block. */
    twostate predicate HoldsOnly(new a: Allocation, new size: nat, new thread: ThreadId)
      reads this, pages.Values
    {
      && a.page in pages && a.offset == 0
      && pages[a.page].capacity == (if size < pageSize then pageSize else size)
      && totalCapacity == old(totalCapacity) + pages[a.page].capacity
      && pages[a.page].used == size && pages[a.page].lockedToThread == LockFor(thread)
    }

    /** The second half of allocInternal: a new page, of the standard size or exactly as large as the request. */
    method AllocNewPage(size: nat, alignment: nat, metadata: int, thread: ThreadId, createOk: bool, mapOk: bool)
      returns (r: Result<Allocation>)
      requires Valid() && size > 0 && alignment > 0 && thread != NO_THREAD && NeedsPage(size, alignment, thread)
      modifies this
      ensures Valid()
      ensures r.Err? ==> LiveBlocks() == old(LiveBlocks()) && totalUsed == old(totalUsed) && owner == old(owner)
      ensures r.Ok? <==> createOk && (keepPagesMapped ==> mapOk)
      ensures r.Err? ==> r == Err(if createOk then MapFailed else CreateFailed)
      ensures r == Err(CreateFailed) ==> unchanged(this)
      ensures r == Err(MapFailed) ==> LeftUnmapped(old(nextPageId)) && PageJoined(pages[old(nextPageId)])
                                      && pages[old(nextPageId)].capacity == (if size < pageSize then pageSize else size)
      ensures r.Ok? ==> r.value.page in pages && r.value.page !in old(pages) && r.value.offset % alignment == 0
      ensures r.Ok? ==> HoldsOnly(r.value, size, thread)
      ensures r.Ok? ==> pages == old(pages)[r.value.page := pages[r.value.page]]
      ensures r.Ok? ==> LiveBlocks() == old(LiveBlocks())
                        + {(r.value.page, Node(r.value.offset, size, false, metadata))}
      ensures r.Ok? ==> totalUsed == old(totalUsed) + size
      ensures r.Ok? ==> owner == old(owner)[r.value := thread]
      ensures old(Recycled()) && r != Err(MapFailed) ==> Recycled()
      ensures keepPagesMapped && r.Ok? ==> pages[r.value.page].mapped && (old(AllMapped()) ==> AllMapped())
      ensures old(Recycled()) && r == Err(MapFailed) ==>
                (Recycled() <==> size < pageSize || (size == pageSize && forall e :: !old(IsEmpty(e))))
    {
      hide Candidate, LiveBlocks, Total, ThreadsLocked, Recycled, UsedBy, CapacityBy, NeedsPage, Tiles, Live,
           LiveSize;
      var capacity := if size < pageSize then pageSize else size;
      var page := AllocPage(capacity, createOk, mapOk);
      if page.Err? {
        if old(Recycled()) && createOk {
          ghost var added := old(nextPageId);
          RecycledAfterFailedMap(added, size, alignment, thread);
        }
        return Err(page.error);
      }
      var id := page.value;
      ghost var joined := pages[id];
      assert pages[id].used == 0;
      EmptyOffers(pages[id].nodes, capacity, size, alignment, LockFor(thread));
      var offset := AllocFrom(id, size, alignment, metadata, thread);
      if old(Recycled()) {
        RecycledAfterJoin(id, size, alignment, thread);
      }
      return Ok(Allocation(id, offset.value));
    }

    /**
     allocInternal: the block is aligned, joins the live blocks and changes nothing else; a page is created only
     when needed, so a request that some page can hold never fails. With pages kept mapped the block lies in a mapped
     page exactly if it does not come from a page that an earlier failed mapping left behind.
     */
    method AllocInternal(order: seq<int>, size: Arithmetic.Size, alignment: nat, metadata: int, thread: ThreadId,
                         createOk: bool, mapOk: bool)
      returns (r: Result<Allocation>)
      requires Valid() && Yields(order) && AlignAllocationSize(size) > 0 && thread != NO_THREAD
      modifies this, pages.Values
      ensures Valid()
      ensures r == Err(InvalidArg) <==> alignment == 0
      ensures r.Ok? ==> r.value.page in pages && r.value.offset % alignment == 0
      ensures r.Err? ==> LiveBlocks() == old(LiveBlocks()) && totalUsed == old(totalUsed) && owner == old(owner)
      ensures alignment > 0 ==> var needed := old(NeedsPage(AlignAllocationSize(size), alignment, thread));
                && (r == Err(CreateFailed) <==> needed && !createOk)
                && (r == Err(MapFailed) <==> needed && createOk && !mapOk && keepPagesMapped)
                && (r.Ok? <==> !needed || (createOk && (keepPagesMapped ==> mapOk)))
                && (r.Ok? && needed ==> r.value.page !in old(pages)
                                        && pages == old(pages)[r.value.page := pages[r.value.page]]
                                        && HoldsOnly(r.value, AlignAllocationSize(size), thread))
                && (!needed ==> r.value.page in old(pages) && pages == old(pages) && totalCapacity == old(totalCapacity)
                                && old(FirstPage(order, r.value.page, AlignAllocationSize(size), alignment,
                                                 LockFor(thread)))
                                && FirstPlace(r.value.page, r.value.offset, AlignAllocationSize(size), alignment,
                                              LockFor(thread)))
      ensures r == Err(CreateFailed) ==> unchanged(this) && forall id :: id in pages ==> Same(pages[id])
      ensures r == Err(MapFailed) ==> LeftUnmapped(old(nextPageId)) && PageJoined(pages[old(nextPageId)])
                                      && pages[old(nextPageId)].capacity
                                         == Arithmetic.Max(pageSize, AlignAllocationSize(size))
      ensures r.Ok? ==> LiveBlocks() == old(LiveBlocks())
                        + {(r.value.page, Node(r.value.offset, AlignAllocationSize(size), false, metadata))}
      ensures r.Ok? ==> totalUsed == old(totalUsed) + AlignAllocationSize(size)
      ensures r.Ok? ==> owner == old(owner)[r.value := thread]
      ensures old(Recycled()) && r != Err(MapFailed) ==> Recycled()
      ensures keepPagesMapped && r.Ok? ==>
                (pages[r.value.page].mapped <==> (r.value.page in old(pages) ==> old(pages[r.value.page].mapped)))
      ensures keepPagesMapped && r != Err(MapFailed) && old(AllMapped()) ==> AllMapped()
      ensures old(Recycled()) && r == Err(MapFailed) ==>
                (Recycled() <==> AlignAllocationSize(size) < pageSize
                                 || (AlignAllocationSize(size) == pageSize && forall e :: !old(IsEmpty(e))))
    {
      hide Candidate, LiveBlocks, Total, ThreadsLocked, Recycled, UsedBy, CapacityBy, ValidPages, Offers,
           AlignAllocationSize;
      if alignment == 0 {
        return Err(InvalidArg);
      }
      var alignedSize := AlignAllocationSize(size);
      if alignedSize < pageSize {
        var found := ScanPages(order, alignedSize, alignment, metadata, thread);
        if found.Some? {
          return Ok(found.value);
        }
        NothingChanged();
      }
      r := AllocNewPage(alignedSize, alignment, metadata, thread, createOk, mapOk);
    }

    // ---------- Mapping ----------

    /**
     map: the block's place in its page. With pages kept mapped nothing is mapped here, and the place is one from the
     null pointer exactly if the mapping of the page failed when it was created. On demand the whole page is mapped,
     which asserts that it is not mapped yet.
     */
    method Map(a: Allocation, mapOk: bool) returns (r: Result<Address>)
      requires Valid() && IsLive(a)
      modifies pages[a.page]
      ensures Valid() && LiveBlocks() == old(LiveBlocks()) && pages[a.page].used == old(pages[a.page].used)
      ensures r == Err(AssertFailed) <==> !keepPagesMapped && old(pages[a.page].mapped)
      ensures r == Err(MapFailed) <==> !keepPagesMapped && !old(pages[a.page].mapped) && !mapOk
      ensures r.Ok? <==> keepPagesMapped || (!old(pages[a.page].mapped) && mapOk)
      ensures r.Ok? ==> r == Ok(if pages[a.page].mapped then InPage(a.page, a.offset) else FromNull(a.offset))
      ensures pages[a.page].mapped == (old(pages[a.page].mapped) || (!keepPagesMapped && mapOk))
      ensures keepPagesMapped ==> (r == Ok(FromNull(a.offset)) <==> !mapResult[a.page])
    {
      if !keepPagesMapped {
        if pages[a.page].mapped {
          return Err(AssertFailed);
        }
        var mapped := pages[a.page].Map(mapOk);
        MappingChanged(a.page);
        if !mapped {
          return Err(MapFailed);
        }
      }
      return Ok(if pages[a.page].mapped then InPage(a.page, a.offset) else FromNull(a.offset));
    }

    /** unmap: it undoes map unless pages are kept mapped, and asserts that there is something to undo. */
    method Unmap(a: Allocation, unmapOk: bool) returns (r: Result<()>)
      requires Valid() && IsLive(a)
      modifies pages[a.page]
      ensures Valid() && LiveBlocks() == old(LiveBlocks()) && pages[a.page].used == old(pages[a.page].used)
      ensures r == Err(AssertFailed) <==> !keepPagesMapped && !old(pages[a.page].mapped)
      ensures r == Err(UnmapFailed) <==> !keepPagesMapped && old(pages[a.page].mapped) && !unmapOk
      ensures r.Ok? <==> keepPagesMapped || (old(pages[a.page].mapped) && unmapOk)
      ensures pages[a.page].mapped == (old(pages[a.page].mapped) && (keepPagesMapped || !unmapOk))
    {
      if !keepPagesMapped {
        if !pages[a.page].mapped {
          return Err(AssertFailed);
        }
        var unmapped := pages[a.page].Unmap(unmapOk);
        MappingChanged(a.page);
        if !unmapped {
          return Err(UnmapFailed);
        }
      }
      return Ok(());
    }

    /** Mapping or unmapping a page on demand touches nothing else. */
    twostate lemma MappingChanged(new id: int)
      requires old(Valid()) && !keepPagesMapped && id in pages && OthersUnchanged(id)
      requires pages[id].nodes == old(pages[id].nodes) && pages[id].used == old(pages[id].used)
      requires pages[id].lockedToThread == old(pages[id].lockedToThread)
      requires nextPageId == old(nextPageId) && mapResult == old(mapResult) && owner == old(owner)
      requires totalUsed == old(totalUsed) && totalCapacity == old(totalCapacity)
      ensures Valid() && LiveBlocks() == old(LiveBlocks())
    {
      hide Tiles, Live, LiveSize, Total;
      TotalsChanged(id);
      forall k: int | k in pages
        ensures pages[k].nodes == old(pages[k].nodes) && pages[k].lockedToThread == old(pages[k].lockedToThread)
        ensures pages[k].Valid() && pages[k].id == k && k < nextPageId
      {
        assert k != id ==> Same(pages[k]);
      }
      forall k, n ensures (k, n) in LiveBlocks() <==> (k, n) in old(LiveBlocks()) {
        if k in pages {
          assert pages[k].nodes == old(pages[k].nodes);
        }
      }
      forall a ensures a in owner <==> IsLive(a) {
        assert a in old(owner) <==> old(IsLive(a));
        if a.page in pages {
          assert pages[a.page].nodes == old(pages[a.page].nodes);
        }
      }
    }

    // ---------- Freeing ----------

    /**
     release: with nothing live no page is left, as its assertions demand. The result says whether every page that was
     removed could be unmapped.
     */
    method Release(order: seq<int>) returns (ok: bool)
      requires Valid() && Yields(order)
      modifies this`pages, this`totalCapacity
      ensures Valid() && LiveBlocks() == old(LiveBlocks()) && owner == old(owner) && totalUsed == old(totalUsed)
      ensures forall id :: id in pages <==> id in old(pages) && old(pages[id].used) > 0
      ensures LiveBlocks() == {} ==> forall id :: id !in pages
      ensures ok <==> (keepPagesMapped ==> forall id :: old(IsEmpty(id)) ==> old(pages[id].mapped))
    {
      hide Total, UsedBy, CapacityBy, LiveBlocks, Valid;
      var pagesToRemove := EmptyPages(order);
      ok := true;
      for i := 0 to |pagesToRemove|
        invariant forall j :: i <= j < |pagesToRemove| ==> IsEmpty(pagesToRemove[j])
        invariant ok <==> (keepPagesMapped ==> forall j :: 0 <= j < i ==> old(pages)[pagesToRemove[j]].mapped)
        invariant Valid() && LiveBlocks() == old(LiveBlocks()) && owner == old(owner) && totalUsed == old(totalUsed)
        invariant forall id :: id in pages <==> id in old(pages) && id !in pagesToRemove[..i]
        invariant forall id :: id in pages ==> pages[id] == old(pages)[id]
      {
        assert pagesToRemove[i] !in pagesToRemove[..i];
        var freed := FreePage(pagesToRemove[i]);
        ok := ok && freed;
        assert pagesToRemove[..i + 1] == pagesToRemove[..i] + [pagesToRemove[i]];
      }
      assert pagesToRemove[..|pagesToRemove|] == pagesToRemove;
      NoLiveNoPages();
    }

    /** The pages without allocations, each once. */
    method EmptyPages(order: seq<int>) returns (empties: seq<int>)
      requires Yields(order)
      ensures forall j :: 0 <= j < |empties| ==> IsEmpty(empties[j])
      ensures forall id :: IsEmpty(id) ==> id in empties
      ensures forall j, k :: 0 <= j < k < |empties| ==> empties[j] != empties[k]
    {
      empties := [];
      for i := 0 to |order|
        invariant forall j :: 0 <= j < |empties| ==> IsEmpty(empties[j])
        invariant forall j, k :: 0 <= j < k < |empties| ==> empties[j] != empties[k]
        invariant forall j :: 0 <= j < |empties| ==> empties[j] in order[..i]
        invariant forall j :: 0 <= j < i && IsEmpty(order[j]) ==> order[j] in empties
      {
        InPages(order, i);
        assert order[..i + 1] == order[..i] + [order[i]];
        assert order[i] !in order[..i];
        if pages[order[i]].used == 0 {
          empties := empties + [order[i]];
        }
      }
      forall id | IsEmpty(id) ensures id in empties {
        assert id in order;
      }
    }

    lemma NoLiveNoPages()
      requires Valid() && (forall id :: id in pages ==> pages[id].used > 0)
      ensures LiveBlocks() == {} ==> forall id :: id !in pages
    {
      forall id | id in pages ensures LiveBlocks() != {} {
        LiveSizeZero(pages[id].nodes);
        var n :| n in Live(pages[id].nodes);
        assert (id, n) in LiveBlocks();
      }
    }

    /** The node a live allocation points at. */
    ghost function NodeOf(a: Allocation): (n: Node)
      reads this, pages.Values
      requires IsLive(a)
      ensures n in Live(pages[a.page].nodes) && n.offset == a.offset
    {
      var n :| n in Live(pages[a.page].nodes) && n.offset == a.offset; n
    }

    twostate lemma BlocksRemoved(new id: int, new n: Node)
      requires id in pages && OthersUnchanged(id)
      requires Live(pages[id].nodes) == old(Live(pages[id].nodes)) - {n}
      ensures LiveBlocks() == old(LiveBlocks()) - {(id, n)}
    {
      forall k, m ensures (k, m) in LiveBlocks() <==> (k, m) in old(LiveBlocks()) && (k, m) != (id, n) {
        if k in pages && k != id {
          assert Same(pages[k]);
        }
      }
    }

    twostate lemma OwnersAfterFree(new id: int, new n: Node)
      requires old(ValidPages()) && old(forall a :: a in owner <==> IsLive(a)) && id in pages && OthersUnchanged(id)
      requires n in old(Live(pages[id].nodes)) && Live(pages[id].nodes) == old(Live(pages[id].nodes)) - {n}
      requires owner == old(owner) - {Allocation(id, n.offset)}
      ensures forall a :: a in owner <==> IsLive(a)
    {
      hide Live, LiveSize;
      forall m | m in old(Live(pages[id].nodes)) && m.offset == n.offset ensures m == n {
        SameLive(old(pages[id].nodes), m, n);
      }
      forall a ensures a in owner <==> IsLive(a) {
        assert a in old(owner) <==> old(IsLive(a));
        if a.page in pages && a.page != id {
          assert Same(pages[a.page]);
        }
      }
    }

    /** The remaining blocks of the page belong to the thread it is still locked to. */
    twostate lemma LocksAfterFree(new id: int, new n: Node)
      requires old(Valid()) && id in pages && OthersUnchanged(id)
      requires n in old(Live(pages[id].nodes)) && Live(pages[id].nodes) == old(Live(pages[id].nodes)) - {n}
      requires pages[id].Valid()
      requires pages[id].lockedToThread == if pages[id].used == 0 then NO_THREAD else old(pages[id].lockedToThread)
      requires owner == old(owner) - {Allocation(id, n.offset)}
      ensures ThreadsLocked()
    {
      hide Total, UsedBy, CapacityBy, MappedOnce, LiveSize;
      LiveSizeZero(pages[id].nodes);
      OwnersAfterFree(id, n);
      forall k | k in pages && keepPagesMapped ensures pages[k].lockedToThread == NO_THREAD {
        assert k != id ==> Same(pages[k]);
      }
      forall a | a in owner && !keepPagesMapped
        ensures owner[a] == pages[a.page].lockedToThread && owner[a] != NO_THREAD
      {
        assert IsLive(a) && a in old(owner);
        assert a.page != id ==> Same(pages[a.page]);
      }
    }

    /** An empty page has left the heap. */
    twostate predicate PageGone(new id: int)
      reads this, pages.Values
    {
      && id in old(pages) && old(pages[id].used) == 0 && pages == old(pages) - {id}
      && (forall k :: k in pages <==> k in old(pages) && k != id) && (forall k :: k in pages ==> Same(pages[k]))
      && nextPageId == old(nextPageId) && owner == old(owner) && totalUsed == old(totalUsed)
      && totalCapacity == old(totalCapacity) - old(pages[id].capacity) && mapResult == old(mapResult)
    }

    twostate lemma GonePages(new id: int)
      requires old(ValidPages() && MappedOnce()) && PageGone(id)
      ensures ValidPages() && MappedOnce() && (old(AllMapped()) ==> AllMapped())
    {
      hide Tiles, LiveSize;
      forall k | k in pages ensures pages[k].Valid() && pages[k].id == k && k < nextPageId {
        assert Same(pages[k]);
      }
      forall k | k in pages ensures pages[k].mapped == old(pages[k].mapped) {
        assert Same(pages[k]);
      }
    }

    twostate lemma GoneTotals(new id: int)
      requires old(totalUsed == Total(UsedBy()) && totalCapacity == Total(CapacityBy())) && PageGone(id)
      ensures totalUsed == Total(UsedBy()) && totalCapacity == Total(CapacityBy())
    {
      var before, after := old(UsedBy()) - {id}, UsedBy();
      forall k | k in pages ensures after[k] == before[k] {
        assert Same(pages[k]);
      }
      assert after == before;
      TotalRemove(old(UsedBy()), id);
      assert CapacityBy() == old(CapacityBy()) - {id};
      TotalRemove(old(CapacityBy()), id);
    }

    twostate lemma GoneLive(new id: int)
      requires old(ValidPages() && ThreadsLocked()) && PageGone(id)
      ensures LiveBlocks() == old(LiveBlocks()) && ThreadsLocked()
    {
      hide Live;
      LiveSizeZero(old(pages[id].nodes));
      forall k, m ensures (k, m) in LiveBlocks() <==> (k, m) in old(LiveBlocks()) {
        if k in pages {
          assert Same(pages[k]);
        }
      }
      forall a ensures a in owner <==> IsLive(a) {
        assert a in old(owner) <==> old(IsLive(a));
        if a.page in pages {
          assert Same(pages[a.page]);
        }
      }
    }

    twostate lemma GoneEmpties(new id: int)
      requires PageGone(id)
      ensures old(RecycledBut(id)) ==> Recycled()
    {
      forall k | IsEmpty(k) ensures old(IsEmpty(k)) && k != id {
        assert Same(pages[k]);
      }
    }

    twostate lemma PageLeft(new id: int)
      requires old(Valid()) && PageGone(id)
      ensures Valid() && LiveBlocks() == old(LiveBlocks())
      ensures old(AllMapped()) ==> AllMapped()
      ensures old(RecycledBut(id)) ==> Recycled()
    {
      hide Total, UsedBy, CapacityBy, LiveBlocks, ThreadsLocked, MappedOnce, AllMapped, ValidPages, PageGone,
           Recycled, RecycledBut;
      GonePages(id);
      GoneTotals(id);
      GoneLive(id);
      GoneEmpties(id);
    }

    /**
     Removes an empty page. With pages kept mapped its buffer is unmapped first, which asserts that it is mapped: the
     result says whether that held.
     */
    method FreePage(id: int) returns (ok: bool)
      requires Valid() && id in pages && pages[id].used == 0
      modifies this`pages, this`totalCapacity
      ensures Valid() && pages == old(pages) - {id}
      ensures ok <==> (keepPagesMapped ==> old(pages[id].mapped))
      ensures LiveBlocks() == old(LiveBlocks()) && owner == old(owner) && totalUsed == old(totalUsed)
      ensures old(AllMapped()) ==> AllMapped()
      ensures old(RecycledBut(id)) ==> Recycled()
      ensures totalCapacity == old(totalCapacity) - old(pages[id].capacity)
    {
      hide Total, UsedBy, CapacityBy, LiveBlocks, ThreadsLocked, MappedOnce, AllMapped, ValidPages, Recycled,
           RecycledBut;
      LeavingPage(id);
      totalCapacity := totalCapacity - pages[id].capacity;
      ok := !keepPagesMapped || pages[id].mapped;
      pages := pages - {id};
      PageLeft(id);
    }

    lemma LeavingPage(id: int)
      requires Valid() && id in pages && pages[id].used == 0
      ensures pages[id].capacity <= totalCapacity
    {
      TotalRemove(CapacityBy(), id);
    }

    lemma InPages(order: seq<int>, i: nat)
      requires Yields(order) && i < |order|
      ensures order[i] in pages && forall j :: 0 <= j < i ==> order[j] != order[i]
    {
      assert order[i] in order;
    }

    /** Counts the pages without allocations, enough to tell whether there are two. */
    method CountEmpty(order: seq<int>) returns (count: nat)
      requires Yields(order)
      ensures count > 1 ==> exists e, e' :: e != e' && IsEmpty(e) && IsEmpty(e')
      ensures count <= 1 ==> forall e, e' :: IsEmpty(e) && IsEmpty(e') ==> e == e'
    {
      count := 0;
      ghost var first, second := 0, 0;
      for i := 0 to |order|
        invariant count >= 1 ==> first < i && IsEmpty(order[first])
        invariant count >= 2 ==> second < i && second != first && IsEmpty(order[second])
        invariant forall j :: 0 <= j < i && count < 2 && IsEmpty(order[j]) ==> count == 1 && j == first
      {
        InPages(order, i);
        if pages[order[i]].used == 0 {
          if count == 0 {
            first := i;
          } else {
            second := i;
          }
          count := count + 1;
        }
      }
      if count > 1 {
        InPages(order, first);
        InPages(order, second);
      }
      forall e, e' | count <= 1 && IsEmpty(e) && IsEmpty(e') ensures e == e' {
        assert e in order && e' in order;
        var j :| 0 <= j < |order| && order[j] == e;
        var j' :| 0 <= j' < |order| && order[j'] == e';
      }
    }

    /** A page that becomes empty goes unless it has the standard size and no other page is empty. */
    ghost predicate Superfluous(id: int)
      reads this, pages.Values
      requires id in pages
    {
      pages[id].capacity != pageSize || exists e :: e != id && IsEmpty(e)
    }

    /**
     free: exactly the block stops being live. Its page goes exactly if it holds no other block and has another size
     than the standard one or another page is empty already; the result says whether it could be unmapped then.
     */
    method Free(order: seq<int>, a: Allocation) returns (ok: bool)
      requires Valid() && Yields(order) && IsLive(a)
      modifies this, pages.Values
      ensures Valid()
      ensures LiveBlocks() == old(LiveBlocks()) - {(a.page, old(NodeOf(a)))}
      ensures owner == old(owner) - {a}
      ensures totalUsed == old(totalUsed) - old(NodeOf(a).size)
      ensures old(Recycled()) ==> Recycled()
      ensures pages == if old(Live(pages[a.page].nodes) == {NodeOf(a)} && Superfluous(a.page))
                       then old(pages) - {a.page} else old(pages)
      ensures ok <==> (keepPagesMapped && pages != old(pages) ==> old(pages[a.page].mapped))
      ensures old(AllMapped()) ==> ok && AllMapped()
    {
      hide Total, UsedBy, CapacityBy, LiveBlocks, ThreadsLocked, Live, Tiles, LiveSize, NodeOf, Valid, Recycled,
           RecycledBut;
      FreeBlock(a);
      OthersStillEmpty(a.page);
      ok := true;
      if pages[a.page].used == 0 {
        ok := ReleaseEmpty(order, a.page);
      }
    }

    /** What happens to a page that has just become empty. */
    method ReleaseEmpty(order: seq<int>, id: int) returns (ok: bool)
      requires Valid() && Yields(order) && IsEmpty(id)
      modifies this`pages, this`totalCapacity
      ensures Valid() && LiveBlocks() == old(LiveBlocks()) && owner == old(owner) && totalUsed == old(totalUsed)
      ensures pages == if old(Superfluous(id)) then old(pages) - {id} else old(pages)
      ensures ok <==> (keepPagesMapped && pages != old(pages) ==> old(pages[id].mapped))
      ensures old(AllMapped()) ==> AllMapped()
      ensures old(RecycledBut(id)) ==> Recycled()
    {
      hide Valid, LiveBlocks;
      ok := true;
      if pages[id].capacity == pageSize {
        var emptyPages := CountEmpty(order);
        if emptyPages > 1 {
          ghost var e, e' :| e != e' && IsEmpty(e) && IsEmpty(e');
          assert IsEmpty(if e == id then e' else e);
          assert Superfluous(id);
          ok := FreePage(id);
        } else {
          assert IsEmpty(id);
          assert !Superfluous(id);
        }
      } else {
        ok := FreePage(id);
      }
    }

    twostate lemma OthersStillEmpty(new id: int)
      requires id in pages && pages == old(pages) && OthersUnchanged(id)
      ensures Superfluous(id) <==> old(Superfluous(id))
    {
      forall e | e != id ensures IsEmpty(e) <==> old(IsEmpty(e)) {
        if e in pages {
          assert Same(pages[e]);
        }
      }
    }

    twostate lemma LastBlock(new id: int, new n: Node)
      requires id in pages && old(id in pages) && pages[id].Valid() && n in old(Live(pages[id].nodes))
      requires Live(pages[id].nodes) == old(Live(pages[id].nodes)) - {n}
      ensures pages[id].used == 0 <==> old(Live(pages[id].nodes)) == {n}
    {
      hide Live;
      LiveSizeZero(pages[id].nodes);
      SetLess(old(Live(pages[id].nodes)), n);
    }

    method FreeBlock(a: Allocation)
      requires Valid() && IsLive(a)
      modifies this`totalUsed, this`owner, pages[a.page]
      ensures Valid()
      ensures LiveBlocks() == old(LiveBlocks()) - {(a.page, old(NodeOf(a)))}
      ensures owner == old(owner) - {a}
      ensures totalUsed == old(totalUsed) - old(NodeOf(a).size)
      ensures OthersUnchanged(a.page)
      ensures pages[a.page].used == 0 <==> old(Live(pages[a.page].nodes) == {NodeOf(a)})
      ensures pages[a.page].mapped == old(pages[a.page].mapped) && (old(AllMapped()) ==> AllMapped())
      ensures old(Recycled()) ==> if pages[a.page].used == 0 then RecycledBut(a.page) else Recycled()
    {
      hide Total, UsedBy, CapacityBy, LiveBlocks, ThreadsLocked, MappedOnce, AllMapped, IsLive, Live, Tiles, LiveSize,
           NodeOf, Chain, Recycled, RecycledBut, ValidPages;
      ghost var n := NodeOf(a);
      BlockExists(a);
      var i :| 0 <= i < |pages[a.page].nodes| && BlockAt(a, i);
      BlockFacts(a, i);
      FreeAt(a, i);
      LastBlock(a.page, n);
      AfterFree(a.page, n);
    }

    /** The position of the block in the node list of its page. */
    predicate BlockAt(a: Allocation, i: nat)
      reads this, pages.Values
      requires a.page in pages && i < |pages[a.page].nodes|
    {
      !pages[a.page].nodes[i].free && pages[a.page].nodes[i].offset == a.offset
    }

    lemma BlockExists(a: Allocation)
      requires IsLive(a)
      ensures a.page in pages && exists i :: 0 <= i < |pages[a.page].nodes| && BlockAt(a, i)
    {
      var n :| n in Live(pages[a.page].nodes) && n.offset == a.offset;
      var i :| 0 <= i < |pages[a.page].nodes| && pages[a.page].nodes[i] == n;
      assert BlockAt(a, i);
    }

    lemma BlockFacts(a: Allocation, i: nat)
      requires Valid() && IsLive(a) && i < |pages[a.page].nodes| && BlockAt(a, i)
      ensures pages[a.page].nodes[i] == NodeOf(a) && pages[a.page].Valid()
      ensures 0 < NodeOf(a).size <= pages[a.page].used && NodeOf(a).size <= totalUsed
    {
      SameLive(pages[a.page].nodes, pages[a.page].nodes[i], NodeOf(a));
      BlockInTotal(a.page, i);
    }

    method FreeAt(a: Allocation, i: nat)
      requires ValidPages() && a.page in pages && i < |pages[a.page].nodes| && BlockAt(a, i)
      requires pages[a.page].nodes[i].size <= totalUsed
      modifies this`totalUsed, this`owner, pages[a.page]
      ensures OthersUnchanged(a.page) && pages[a.page].Valid() && pages[a.page].mapped == old(pages[a.page].mapped)
      ensures Live(pages[a.page].nodes) == old(Live(pages[a.page].nodes)) - {old(pages[a.page].nodes[i])}
      ensures pages[a.page].used == old(pages[a.page].used) - old(pages[a.page].nodes[i].size)
      ensures pages[a.page].lockedToThread
           == if pages[a.page].used == 0 then NO_THREAD else old(pages[a.page].lockedToThread)
      ensures totalUsed == old(totalUsed) - old(pages[a.page].nodes[i].size) && owner == old(owner) - {a}
    {
      hide Live, Tiles, LiveSize;
      var page := pages[a.page];
      totalUsed := totalUsed - page.nodes[i].size;
      page.FreeNode(i);
      owner := owner - {a};
    }

    twostate lemma PagesChanged(new id: int)
      requires old(ValidPages()) && id in pages && OthersUnchanged(id) && pages[id].Valid()
      requires old(MappedOnce()) && pages[id].mapped == old(pages[id].mapped)
      requires nextPageId == old(nextPageId) && mapResult == old(mapResult)
      ensures ValidPages() && MappedOnce() && (old(AllMapped()) ==> AllMapped())
    {
      forall k | k in pages ensures pages[k].Valid() && pages[k].id == k && k < nextPageId {
        assert k != id ==> Same(pages[k]);
      }
    }

    twostate lemma AfterFree(new id: int, new n: Node)
      requires old(Valid()) && id in pages && OthersUnchanged(id)
      requires n in old(Live(pages[id].nodes)) && Live(pages[id].nodes) == old(Live(pages[id].nodes)) - {n}
      requires pages[id].Valid() && pages[id].used == old(pages[id].used) - n.size && 0 < n.size
      requires pages[id].lockedToThread == if pages[id].used == 0 then NO_THREAD else old(pages[id].lockedToThread)
      requires owner == old(owner) - {Allocation(id, n.offset)} && totalUsed == old(totalUsed) - n.size
      requires nextPageId == old(nextPageId) && totalCapacity == old(totalCapacity)
      requires mapResult == old(mapResult) && pages[id].mapped == old(pages[id].mapped)
      ensures Valid() && (old(AllMapped()) ==> AllMapped()) && LiveBlocks() == old(LiveBlocks()) - {(id, n)}
      ensures old(Recycled()) ==> if pages[id].used == 0 then RecycledBut(id) else Recycled()
    {
      hide Total, UsedBy, CapacityBy, LiveBlocks, ThreadsLocked, Live, Recycled, RecycledBut, ValidPages, MappedOnce,
           AllMapped, OthersUnchanged;
      PagesChanged(id);
      TotalsChanged(id);
      BlocksRemoved(id, n);
      LocksAfterFree(id, n);
      EmptiesAfterFree(id);
    }

    twostate lemma EmptiesAfterFree(new id: int)
      requires id in pages && OthersUnchanged(id) && old(pages[id].used) > 0
      ensures old(Recycled()) ==> if pages[id].used == 0 then RecycledBut(id) else Recycled()
    {
      forall k | k in pages && k != id ensures IsEmpty(k) <==> old(IsEmpty(k)) {
        assert Same(pages[k]);
      }
    }

    lemma BlockInTotal(id: int, i: nat)
      requires Valid() && id in pages && i < |pages[id].nodes| && !pages[id].nodes[i].free
      ensures 0 < pages[id].nodes[i].size <= pages[id].used && pages[id].nodes[i].size <= totalUsed
    {
      FreedSize(pages[id].nodes, i);
      TotalRemove(UsedBy(), id);
      assert pages[id].nodes[i] in pages[id].nodes;
    }
  }

  /**
   When all that is there is a page whose mapping failed, the next request below the standard size succeeds with a block
   in that page, for which map hands out an offset from the null pointer.
   */
  method AllocUnmapped(heap: Heap, id: int, size: Arithmetic.Size, alignment: nat, metadata: int, thread: ThreadId)
    returns (r: Result<Allocation>, address: Result<Address>)
    requires heap.Valid() && heap.keepPagesMapped && heap.LeftUnmapped(id) && forall k :: k in heap.pages ==> k == id
    requires 0 < heap.AlignAllocationSize(size) < heap.pageSize && alignment > 0 && thread != NO_THREAD
    modifies heap, heap.pages.Values
    ensures r.Ok? && r.value.page == id && address == Ok(FromNull(r.value.offset))
  {
    hide Heap.Valid, Heap.NeedsPage, Heap.LiveBlocks, Heap.AllMapped, Heap.Recycled, Heap.PageJoined;
    hide Heap.AlignAllocationSize, Heap.IsLive;
    heap.EmptyServes(id, heap.AlignAllocationSize(size), alignment, thread);
    r := heap.AllocInternal([id], size, alignment, metadata, thread, true, true);
    heap.BlockIsLive(r.value, Node(r.value.offset, heap.AlignAllocationSize(size), false, metadata));
    address := heap.Map(r.value, true);
  }

  /**
   With pages mapped on demand, two blocks of one page cannot be mapped at the same time, nor unmapped one after the
   other: the second call fails its assertion.
   */
  method MapBoth(heap: Heap, a: Allocation, b: Allocation)
    returns (mapped: Result<Address>, mappedToo: Result<Address>, unmapped: Result<()>, unmappedToo: Result<()>)
    requires heap.Valid() && !heap.keepPagesMapped && heap.IsLive(a) && heap.IsLive(b) && a.page == b.page
    requires !heap.pages[a.page].mapped
    modifies heap.pages[a.page]
    ensures mapped == Ok(InPage(a.page, a.offset)) && mappedToo == Err(AssertFailed)
    ensures unmapped.Ok? && unmappedToo == Err(AssertFailed)
  {
    hide Heap.Valid, Heap.LiveBlocks, Live;
    heap.OwnedIsLive(a);
    heap.OwnedIsLive(b);
    mapped := heap.Map(a, true);
    heap.OwnedIsLive(b);
    mappedToo := heap.Map(b, true);
    heap.OwnedIsLive(a);
    unmapped := heap.Unmap(a, true);
    heap.OwnedIsLive(b);
    unmappedToo := heap.Unmap(b, true);
  }

  /**
   A failed mapping at a concrete input: the first request fails, and the second one gets a block without an address.
   */
  method UnmappedBlock() returns (first: Result<Allocation>, second: Result<Allocation>, address: Result<Address>)
    ensures first == Err(MapFailed)
    ensures second.Ok? && address == Ok(FromNull(second.value.offset))
  {
    hide Heap.Valid, Heap.NeedsPage, Heap.LiveBlocks, Heap.AllMapped, Heap.Recycled;
    var heap := new Heap(4096, true);
    heap.FirstNeedsPage(heap.AlignAllocationSize(1024), 1024, 1);
    first := heap.AllocInternal([], 1024, 1024, 0, 1, true, false);
    second, address := AllocUnmapped(heap, 1, 1024, 1024, 0, 1);
  }

  lemma SameLive(nodes: seq<Node>, m: Node, n: Node)
    requires Chain(nodes) && m in Live(nodes) && n in Live(nodes) && m.offset == n.offset
    ensures m == n
  {
    var i :| 0 <= i < |nodes| && nodes[i] == m;
    var j :| 0 <= j < |nodes| && nodes[j] == n;
    SameOffset(nodes, i, j);
  }

  lemma SetLess<T>(s: set<T>, x: T)
    requires x in s
    ensures s - {x} == {} <==> s == {x}
  {
    if s - {x} == {} {
      forall y | y in s ensures y == x {
        assert y != x ==> y in s - {x};
      }
    }
  }
}
