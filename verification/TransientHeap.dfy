/** TransientBufferHeap: chunks leased from pages; empty pages are kept within a budget, the least recently used go. */
module TransientHeap {
  import Arithmetic
  import opened Sequences
  import opened TransientPages
  import opened Wrappers

  datatype Result = Ok | InvalidArg | Fail

  // ---------- Trimming ----------

  predicate Oversize(desc: HeapDesc, p: Page) {
    p.capacity > desc.maxRetainedSize
  }

  /**
   What trimming leaves: every page in use, and empty pages within the budget. Of two empty pages that are not oversize
   the one that stays was used later; and the last such page to go could not have stayed beside those that do.
   */
  ghost predicate Trimmed(desc: HeapDesc, before: seq<Page>, after: seq<Page>, evicted: seq<Page>) {
    && (forall p :: p in before <==> p in after || p in evicted)
    && (forall p :: p in evicted ==> Empty(p) && p !in after)
    && (forall p, q :: p in after && Empty(p) && q in evicted && !Oversize(desc, q) ==> q.lastUsed < p.lastUsed)
    && Total(RetainedOf, after) <= desc.maxRetainedSize
    && (forall q :: q in evicted && !Oversize(desc, q) && LastOf(desc, q, evicted) ==>
          Total(RetainedOf, after) + q.capacity > desc.maxRetainedSize)
  }

  /** Of the evicted pages within the budget, the one used last. */
  ghost predicate LastOf(desc: HeapDesc, q: Page, evicted: seq<Page>) {
    forall r :: r in evicted && !Oversize(desc, r) ==> r.lastUsed <= q.lastUsed
  }

  /** The invariant of the eviction loop. */
  ghost predicate Trimming(desc: HeapDesc, before: seq<Page>, after: seq<Page>, evicted: seq<Page>) {
    && (forall p :: p in before <==> p in after || p in evicted)
    && (forall p :: p in evicted ==> Empty(p) && p !in after)
    && (forall p, q :: p in after && Empty(p) && q in evicted && !Oversize(desc, q) ==>
          q.lastUsed < p.lastUsed && !Oversize(desc, p))
    && (forall q :: q in evicted && !Oversize(desc, q) && LastOf(desc, q, evicted) ==>
          Total(RetainedOf, after) + q.capacity > desc.maxRetainedSize)
  }

  /** What the scan looks for: the first oversize empty page or, without one, the empty page used first. */
  predicate IsCandidate(desc: HeapDesc, pages: seq<Page>, i: nat) {
    && i < |pages| && Empty(pages[i])
    && (Oversize(desc, pages[i])
        || forall j :: 0 <= j < |pages| && Empty(pages[j]) ==>
             !Oversize(desc, pages[j]) && (j != i ==> pages[i].lastUsed < pages[j].lastUsed))
  }

  lemma NotInRest(pages: seq<Page>, nextId: nat, serial: nat, i: nat)
    requires PagesInOrder(pages, nextId, serial) && i < |pages|
    ensures pages[i] !in Without(pages, i)
    ensures forall p :: p in pages <==> p in Without(pages, i) || p == pages[i]
  {
    WithoutMembers(pages, i);
  }

  lemma TrimStep(desc: HeapDesc, before: seq<Page>, pages: seq<Page>, evicted: seq<Page>, i: nat, nextId: nat,
                 serial: nat)
    requires Trimming(desc, before, pages, evicted) && IsCandidate(desc, pages, i)
    requires PagesInOrder(pages, nextId, serial) && Total(RetainedOf, pages) > desc.maxRetainedSize
    ensures Trimming(desc, before, Without(pages, i), evicted + [pages[i]])
  {
    hide Total;
    var c, rest, evicted' := pages[i], Without(pages, i), evicted + [pages[i]];
    NotInRest(pages, nextId, serial, i);
    TotalWithout(RetainedOf, pages, i);
    assert c in evicted';
    forall q | q in evicted && !Oversize(desc, q) ensures !LastOf(desc, q, evicted') {
      assert c in pages && q.lastUsed < c.lastUsed;
    }
  }

  lemma CandidateEmpty(desc: HeapDesc, pages: seq<Page>, i: nat)
    requires IsCandidate(desc, pages, i)
    ensures i < |pages| && Empty(pages[i])
  {
  }

  lemma TrimStart(desc: HeapDesc, pages: seq<Page>)
    ensures Trimming(desc, pages, pages, [])
  {
  }

  lemma TrimDone(desc: HeapDesc, before: seq<Page>, after: seq<Page>, evicted: seq<Page>)
    requires Trimming(desc, before, after, evicted) && Total(RetainedOf, after) <= desc.maxRetainedSize
    ensures Trimmed(desc, before, after, evicted)
  {
    hide Total, LastOf, Oversize;
  }

  lemma StillUsed(pages: seq<Page>, i: nat)
    requires Used(pages) && i < |pages|
    ensures Used(Without(pages, i))
  {
    WithoutAt(pages, i);
  }

  class Heap {
    const desc: HeapDesc
    var pages: seq<Page>
    var currentPage: Option<nat>
    var nextPageId: nat
    var serial: nat
    var nextPageSize: nat
    var totalCapacity: nat
    var totalUsed: nat
    /** The chunks that arenas hold. */
    ghost var live: seq<Lease>

    /** What holds between any two of the heap's own steps. */
    ghost predicate Consistent()
      reads this
    {
      && DescOk(desc) && HeapOk(desc, pages, live, nextPageId, serial)
      && totalCapacity == Total(CapacityOf, pages)
      && totalUsed == LeasedBytes(live) && totalUsed == Total(LiveSizeOf, pages)
      && (currentPage.Some? ==> exists i :: 0 <= i < |pages| && pages[i].id == currentPage.value)
    }

    /** What holds between any two calls. */
    ghost predicate Valid()
      reads this
    {
      && Consistent() && Used(pages) && nextPageSize == NextPageSize(desc, pages)
      && Total(RetainedOf, pages) <= desc.maxRetainedSize
    }

    constructor (desc: HeapDesc)
      requires DescOk(desc)
      ensures Valid() && this.desc == desc && live == [] && pages == [] && serial == 0 && nextPageId == 1
    {
      this.desc := desc;
      pages, currentPage, nextPageId, serial := [], None, 1, 0;
      nextPageSize, totalCapacity, totalUsed := desc.initialPageSize, 0, 0;
      live := [];
    }

    /** Grows the next size until it holds the allocation, and no further. */
    method GetNewPageSize(allocationSize: nat) returns (pageSize: nat)
      requires Valid()
      ensures pageSize == NewPageSize(desc, nextPageSize, allocationSize)
      ensures allocationSize <= pageSize && nextPageSize <= pageSize
      ensures allocationSize <= desc.maxPageSize ==> pageSize <= desc.maxPageSize
      ensures pageSize == nextPageSize || pageSize < 2 * allocationSize
    {
      pageSize := nextPageSize;
      while pageSize < allocationSize && pageSize < desc.maxPageSize
        invariant nextPageSize <= pageSize <= desc.maxPageSize
        invariant pageSize == nextPageSize || pageSize < 2 * allocationSize
        invariant NewPageSize(desc, pageSize, allocationSize) == NewPageSize(desc, nextPageSize, allocationSize)
        decreases desc.maxPageSize - pageSize
      {
        pageSize := GrowPageSize(desc, pageSize);
      }
      if pageSize < allocationSize {
        pageSize := allocationSize;
      }
    }

    /** Recomputes the next size from the pages that are left. */
    method UpdateNextPageSize()
      requires Consistent()
      modifies this`nextPageSize
      ensures nextPageSize == NextPageSize(desc, pages)
    {
      var all := pages;
      nextPageSize := desc.initialPageSize;
      for i := 0 to |all|
        invariant pages == all
        invariant nextPageSize == NextPageSize(desc, all[..i])
      {
        assert all[..i + 1][..i] == all[..i];
        var pageSize := all[i].capacity;
        if desc.initialPageSize <= pageSize <= desc.maxPageSize {
          nextPageSize := Arithmetic.Max(nextPageSize, GrowPageSize(desc, pageSize));
        }
      }
      assert all[..|all|] == all;
    }

    /** freePageLocked for an empty page. */
    method FreePage(i: nat)
      requires Consistent() && i < |pages| && Empty(pages[i])
      modifies this`pages, this`currentPage, this`totalCapacity
      ensures Consistent() && pages == Without(old(pages), i)
      ensures currentPage == if old(currentPage) == Some(old(pages)[i].id) then None else old(currentPage)
    {
      hide Total, LeasedBytes, HeapOk;
      DropKeeps(desc, pages, live, nextPageId, serial, i);
      TotalWithout(CapacityOf, pages, i);
      TotalWithout(LiveSizeOf, pages, i);
      TotalUpdate(CapacityOf, pages, i, pages[i]);
      if currentPage == Some(pages[i].id) {
        currentPage := None;
      }
      totalCapacity := totalCapacity - pages[i].capacity;
      pages := Without(pages, i);
      WithoutAt(old(pages), i);
    }

    /** The first empty page over the budget or, without one, the least recently used empty page. */
    method FindCandidate() returns (candidate: nat)
      requires Consistent() && Total(RetainedOf, pages) > desc.maxRetainedSize
      ensures IsCandidate(desc, pages, candidate)
      ensures forall j :: 0 <= j < candidate && Empty(pages[j]) ==> !Oversize(desc, pages[j])
    {
      hide Total, HeapOk, LeasedBytes;
      InOrder(desc, pages, live, nextPageId, serial);
      candidate := |pages|;
      for i := 0 to |pages|
        invariant candidate == |pages| || candidate < i
        invariant forall j :: 0 <= j < i && Empty(pages[j]) ==> candidate < i && !Oversize(desc, pages[j])
        invariant candidate < i ==> Empty(pages[candidate])
        invariant candidate < i ==>
          forall j :: 0 <= j < i && Empty(pages[j]) && j != candidate ==> pages[candidate].lastUsed < pages[j].lastUsed
      {
        if pages[i].liveChunks != 0 {
          continue;
        }
        if pages[i].capacity > desc.maxRetainedSize {
          return i;
        }
        if candidate == |pages| || pages[i].lastUsed < pages[candidate].lastUsed {
          candidate := i;
        }
      }
      TotalPositive(RetainedOf, pages);
    }

    /** The capacity of the empty pages. */
    method RetainedSize() returns (retainedSize: nat)
      ensures retainedSize == Total(RetainedOf, pages)
    {
      retainedSize := 0;
      for i := 0 to |pages|
        invariant retainedSize == Total(RetainedOf, pages[..i])
      {
        TotalSnoc(RetainedOf, pages[..i], pages[i]);
        assert pages[..i] + [pages[i]] == pages[..i + 1];
        if pages[i].liveChunks == 0 {
          retainedSize := retainedSize + pages[i].capacity;
        }
      }
      assert pages[..|pages|] == pages;
    }

    /** trimRetainedPagesLocked. */
    method TrimRetainedPages() returns (ghost evicted: seq<Page>)
      requires Consistent() && Used(pages)
      modifies this`pages, this`currentPage, this`totalCapacity
      ensures Consistent() && Used(pages) && Trimmed(desc, old(pages), pages, evicted)
    {
      hide Total, HeapOk, LeasedBytes, Trimming, Trimmed, PagesInOrder, IsCandidate, Used;
      var retainedSize := RetainedSize();
      evicted := [];
      TrimStart(desc, pages);
      while retainedSize > desc.maxRetainedSize
        invariant Consistent() && Used(pages) && Trimming(desc, old(pages), pages, evicted)
        invariant retainedSize == Total(RetainedOf, pages)
        decreases |pages|
      {
        var candidate := FindCandidate();
        InOrder(desc, pages, live, nextPageId, serial);
        TrimStep(desc, old(pages), pages, evicted, candidate, nextPageId, serial);
        CandidateEmpty(desc, pages, candidate);
        TotalWithout(RetainedOf, pages, candidate);
        StillUsed(pages, candidate);
        evicted := evicted + [pages[candidate]];
        retainedSize := retainedSize - pages[candidate].capacity;
        FreePage(candidate);
      }
      TrimDone(desc, old(pages), pages, evicted);
    }

    /** Bump allocation in one page, if the page has room after alignment. */
    method TryAllocate(i: nat, alignedSize: nat, ghost owner: nat) returns (ok: bool, chunk: Chunk)
      requires Consistent() && i < |pages|
      modifies this`pages, this`serial, this`totalUsed, this`live
      ensures Consistent() && ok == Fits(desc, old(pages)[i], alignedSize)
      ensures !ok ==> pages == old(pages) && live == old(live) && serial == old(serial) && totalUsed == old(totalUsed)
      ensures ok ==>
        && pages == old(pages)[i := Bump(desc, old(pages)[i], alignedSize, old(serial) + 1)]
        && chunk == Chunk(old(pages)[i].id, Arithmetic.CalcAligned(old(pages)[i].nextOffset, desc.alignment),
                          alignedSize)
        && live == old(live) + [Lease(owner, chunk)] && serial == old(serial) + 1
    {
      hide Total, HeapOk, LeasedBytes;
      var page := pages[i];
      var offset := Arithmetic.CalcAligned(page.nextOffset, desc.alignment);
      chunk := Chunk(page.id, offset, alignedSize);
      if offset > page.capacity || alignedSize > page.capacity - offset {
        return false, chunk;
      }
      BumpKeeps(desc, pages, live, nextPageId, serial, i, alignedSize, owner);
      TotalUpdate(CapacityOf, pages, i, Bump(desc, page, alignedSize, serial + 1));
      TotalUpdate(LiveSizeOf, pages, i, Bump(desc, page, alignedSize, serial + 1));
      LeaseMore(live, Lease(owner, chunk), 0, 0);
      serial := serial + 1;
      pages := pages[i := page.(nextOffset := offset + alignedSize, liveSize := page.liveSize + alignedSize,
                                liveChunks := page.liveChunks + 1, lastUsed := serial)];
      totalUsed := totalUsed + alignedSize;
      live := live + [Lease(owner, chunk)];
      assert forall k :: 0 <= k < |pages| ==> pages[k].id == old(pages)[k].id;
      ok := true;
    }

    /** allocatePageLocked: a new page, unless its buffer cannot be created or mapped. */
    method AllocatePage(size: nat, createOk: bool) returns (ok: bool)
      requires Consistent() && Used(pages) && desc.initialPageSize <= size <= desc.maxPageSize
      modifies this`pages, this`nextPageId, this`totalCapacity
      ensures Consistent() && ok == createOk
      ensures pages == if ok then old(pages) + [NewPage(old(nextPageId), size)] else old(pages)
      ensures !ok ==> nextPageId == old(nextPageId) && totalCapacity == old(totalCapacity)
    {
      hide Total, HeapOk, LeasedBytes;
      if !createOk {
        return false;
      }
      var page := NewPage(nextPageId, size);
      NewPageKeeps(desc, pages, live, nextPageId, serial, size);
      TotalSnoc(CapacityOf, pages, page);
      TotalSnoc(LiveSizeOf, pages, page);
      nextPageId, totalCapacity, pages := nextPageId + 1, totalCapacity + size, pages + [page];
      assert forall k :: 0 <= k < |old(pages)| ==> pages[k] == old(pages)[k];
      return true;
    }

    /** The first of the smallest empty pages that can hold the size; the number of pages if there is none. */
    method FindEmptyPage(alignedSize: nat) returns (page: nat)
      ensures page <= |pages| && (page == |pages| || IsBestEmpty(pages, alignedSize, page))
      ensures page == |pages| ==> forall j :: 0 <= j < |pages| ==> !EmptyHolds(pages[j], alignedSize)
    {
      page := |pages|;
      for i := 0 to |pages|
        invariant page == |pages| || (page < i && IsBestEmpty(pages[..i], alignedSize, page))
        invariant page == |pages| ==> forall j :: 0 <= j < i ==> !EmptyHolds(pages[j], alignedSize)
      {
        if pages[i].liveChunks != 0 || pages[i].capacity < alignedSize {
          continue;
        }
        if page == |pages| || pages[i].capacity < pages[page].capacity {
          page := i;
        }
      }
      assert pages[..|pages|] == pages;
    }

    /**
     allocate: serves a request from the current page, else from the best empty page, else from a new page. It fails on
     no input but a zero size, a size that exceeds the largest page after rounding, and a page that cannot be created.
     A size that is too large to be rounded in 64 bits is not among them: it is served with an empty chunk.
     */
    method Allocate(size: Arithmetic.Size, createOk: bool, ghost owner: nat) returns (result: Result, chunk: Chunk)
      requires Valid()
      modifies this`pages, this`currentPage, this`nextPageId, this`serial, this`nextPageSize, this`totalCapacity,
               this`totalUsed, this`live
      ensures Valid()
      ensures size == 0 <==> result == InvalidArg
      ensures result == Ok <==> size > 0 && AlignAllocationSize(desc, size) <= desc.maxPageSize
                                && (Served(desc, old(pages), old(currentPage), AlignAllocationSize(desc, size))
                                    || createOk)
      ensures result != Ok ==> pages == old(pages) && live == old(live) && currentPage == old(currentPage)
                               && totalUsed == old(totalUsed) && totalCapacity == old(totalCapacity)
      ensures result == Ok ==>
        && live == old(live) + [Lease(owner, chunk)] && chunk.size == AlignAllocationSize(desc, size)
        && currentPage == Some(chunk.page)
        && Chosen(desc, old(pages), old(currentPage), old(nextPageId), old(nextPageSize), old(serial), chunk, pages)
    {
      hide Total, HeapOk, LeasedBytes, NextPageSize, IsBestEmpty, CurrentFits, Served, Chosen, Takes;
      chunk := Chunk(0, 0, 0);
      if size == 0 {
        return InvalidArg, chunk;
      }
      var alignedSize := AlignAllocationSize(desc, size);
      if alignedSize > desc.maxPageSize {
        return Fail, chunk;
      }
      var done;
      done, chunk := FromCurrent(alignedSize, owner);
      if done {
        ghost var i :| 0 <= i < |old(pages)| && Takes(desc, old(pages), i, old(serial), chunk, pages);
        ChosenCurrent(desc, old(pages), old(currentPage), old(nextPageId), old(nextPageSize), old(serial), chunk,
                      pages, i);
        return Ok, chunk;
      }
      var page := FindEmptyPage(alignedSize);
      ServedBy(desc, pages, currentPage, alignedSize, page);
      if page == |pages| {
        var created := NewPageFor(alignedSize, createOk);
        if !created {
          return Fail, chunk;
        }
      }
      ghost var from := pages;
      chunk := FromEmpty(page, alignedSize, owner);
      ChosenEmpty(desc, old(pages), old(currentPage), old(nextPageId), old(nextPageSize), old(serial), chunk, pages,
                    page, from);
      return Ok, chunk;
    }

    method FromCurrent(alignedSize: nat, ghost owner: nat) returns (ok: bool, chunk: Chunk)
      requires Valid()
      modifies this`pages, this`serial, this`totalUsed, this`live
      ensures Valid() && ok == CurrentFits(desc, old(pages), currentPage, alignedSize)
      ensures !ok ==> pages == old(pages) && live == old(live) && totalUsed == old(totalUsed) && serial == old(serial)
      ensures ok ==>
        Some(chunk.page) == currentPage && chunk.size == alignedSize && live == old(live) + [Lease(owner, chunk)]
        && exists i :: 0 <= i < |old(pages)| && Takes(desc, old(pages), i, old(serial), chunk, pages)
    {
      hide Total, HeapOk, LeasedBytes, NextPageSize, Bump, Fits;
      if currentPage.None? {
        return false, Chunk(0, 0, 0);
      }
      var current := IndexOf(currentPage.value);
      CurrentAt(desc, pages, live, nextPageId, serial, current, alignedSize);
      ghost var before := pages;
      ok, chunk := TryAllocate(current, alignedSize, owner);
      if ok {
        assert Takes(desc, before, current, old(serial), chunk, pages);
        StillValid(desc, before, current, alignedSize, serial);
      }
    }

    method FromEmpty(page: nat, alignedSize: nat, ghost owner: nat) returns (chunk: Chunk)
      requires Consistent() && page < |pages| && EmptyHolds(pages[page], alignedSize)
      requires nextPageSize == NextPageSize(desc, pages)
      requires Total(RetainedOf, pages) <= desc.maxRetainedSize + pages[page].capacity
      requires forall k :: 0 <= k < |pages| && k != page ==> pages[k].lastUsed > 0
      modifies this`pages, this`currentPage, this`serial, this`totalUsed, this`live
      ensures Valid() && chunk.size == alignedSize && Takes(desc, old(pages), page, old(serial), chunk, pages)
      ensures currentPage == Some(chunk.page)
      ensures live == old(live) + [Lease(owner, chunk)]
    {
      hide Total, HeapOk, LeasedBytes, NextPageSize, Bump, Fits;
      currentPage := Some(pages[page].id);
      EmptyPageFits(desc, pages, live, nextPageId, serial, page, alignedSize);
      ghost var before := pages;
      var done;
      done, chunk := TryAllocate(page, alignedSize, owner);
      StillValid(desc, before, page, alignedSize, serial);
    }

    /** A page for a chunk that no page takes, and the next page size after it. */
    method NewPageFor(alignedSize: nat, createOk: bool) returns (ok: bool)
      requires Valid() && alignedSize <= desc.maxPageSize
      modifies this`pages, this`nextPageId, this`nextPageSize, this`totalCapacity
      ensures Consistent() && ok == createOk
      ensures !ok ==> Valid() && pages == old(pages) && totalCapacity == old(totalCapacity)
      ensures ok ==> pages == old(pages) + [NewPage(old(nextPageId), NewPageSize(desc, old(nextPageSize), alignedSize))]
                     && Used(old(pages)) && EmptyHolds(pages[|old(pages)|], alignedSize)
                     && nextPageSize == NextPageSize(desc, pages)
                     && Total(RetainedOf, pages) <= desc.maxRetainedSize + pages[|old(pages)|].capacity
    {
      hide Total, HeapOk, LeasedBytes, NextPageSize;
      var pageSize := GetNewPageSize(alignedSize);
      ghost var before := pages;
      ok := AllocatePage(pageSize, createOk);
      if ok {
        NewPageSizes(desc, before, NewPage(old(nextPageId), pageSize));
        if pageSize <= desc.maxPageSize {
          nextPageSize := GrowPageSize(desc, pageSize);
        }
      }
    }

    /** One chunk comes back; a page that becomes empty starts over. */
    method FreeChunk(chunk: Chunk, ghost j: nat)
      requires Consistent() && Used(pages) && j < |live| && live[j].chunk == chunk
      modifies this`pages, this`serial, this`totalUsed, this`live
      ensures Consistent() && Used(pages) && live == Without(old(live), j)
      ensures pages == ReturnTo(old(pages), chunk, old(serial)) && serial == SerialAfter(old(pages), chunk, old(serial))
    {
      hide Total, HeapOk, LeasedBytes, LiveCount, LiveBytes;
      InOrder(desc, pages, live, nextPageId, serial);
      PageOf(desc, pages, live, nextPageId, serial, j);
      var i := IndexOf(chunk.page);
      var page := pages[i];
      UnbumpKeeps(desc, pages, live, nextPageId, serial, j, i);
      ghost var page' := Unbump(page, chunk.size, serial + 1);
      ReturnedAt(pages, chunk, nextPageId, serial, i);
      TotalUpdate(CapacityOf, pages, i, page');
      TotalUpdate(LiveSizeOf, pages, i, page');
      LeaseLess(live, j, 0);
      var left := page.(liveChunks := page.liveChunks - 1, liveSize := page.liveSize - chunk.size);
      if left.liveChunks == 0 {
        serial := serial + 1;
        left := left.(nextOffset := 0, lastUsed := serial);
      }
      pages := pages[i := left];
      totalUsed := totalUsed - chunk.size;
      live := Without(live, j);
      assert forall k :: 0 <= k < |pages| ==> pages[k].id == old(pages)[k].id;
    }

    /** free: every chunk of an arena comes back, then the empty pages over the budget go. */
    method Free(chunks: seq<Chunk>, ghost owner: nat)
      requires Valid() && chunks == OwnedBy(live, owner)
      modifies this`pages, this`currentPage, this`serial, this`nextPageSize
      modifies this`totalCapacity, this`totalUsed, this`live
      ensures Valid() && OwnedBy(live, owner) == []
      ensures forall o :: o != owner ==> OwnedBy(live, o) == OwnedBy(old(live), o)
      ensures chunks == [] ==> unchanged(this)
      ensures chunks != [] ==>
        var returned := ReturnAll(old(pages), chunks, old(serial));
        serial == returned.1 && exists evicted :: Trimmed(desc, returned.0, pages, evicted)
    {
      hide Total, HeapOk, LeasedBytes, OwnedBy, Position, NextPageSize, ReturnTo, SerialAfter;
      if chunks == [] {
        return;
      }
      for k := 0 to |chunks|
        invariant Consistent() && Used(pages) && OwnedBy(live, owner) == chunks[k..]
        invariant forall o :: o != owner ==> OwnedBy(live, o) == OwnedBy(old(live), o)
        invariant (pages, serial) == ReturnAll(old(pages), chunks[..k], old(serial))
      {
        assert chunks[..k + 1][..k] == chunks[..k];
        ReturnFirst(live, owner);
        FreeChunk(chunks[k], Position(live, owner, 0));
      }
      assert chunks[..|chunks|] == chunks;
      ghost var returned := pages;
      assert returned == ReturnAll(old(pages), chunks, old(serial)).0;
      ghost var evicted := TrimRetainedPages();
      assert Trimmed(desc, returned, pages, evicted);
      UpdateNextPageSize();
    }

    /**
     release: does nothing while bytes are leased; otherwise the pages go, the last one first, up to one that still has
     chunks. The result says whether its assertions held: that no byte is leased, and of each page that no chunk is.
     */
    method Release() returns (ok: bool)
      requires Valid()
      modifies this`pages, this`currentPage, this`totalCapacity
      ensures ok <==> live == []
      ensures LeasedBytes(live) > 0 ==> pages == old(pages) && totalCapacity == old(totalCapacity)
      ensures ok ==> pages == [] && totalCapacity == 0 && currentPage == None
    {
      hide HeapOk;
      NothingLeased(desc, pages, live, nextPageId, serial);
      if totalUsed != 0 {
        return false;
      }
      currentPage := None;
      while pages != []
        invariant Consistent() && currentPage == None
        invariant live == [] ==> forall i :: 0 <= i < |pages| ==> Empty(pages[i])
        decreases |pages|
      {
        if pages[|pages| - 1].liveChunks != 0 {
          return false;
        }
        WithoutAt(pages, |pages| - 1);
        FreePage(|pages| - 1);
      }
      NoPageNoLease(desc, pages, live, nextPageId, serial);
      return true;
    }

    /** The position of the page with this id. */
    method IndexOf(id: nat) returns (i: nat)
      requires exists i :: 0 <= i < |pages| && pages[i].id == id
      ensures i < |pages| && pages[i].id == id && forall j :: 0 <= j < i ==> pages[j].id != id
    {
      i := 0;
      while pages[i].id != id
        invariant i < |pages| && forall j :: 0 <= j < i ==> pages[j].id != id
        decreases |pages| - i
      {
        i := i + 1;
      }
    }
  }

  predicate EmptyHolds(p: Page, size: nat) {
    Empty(p) && size <= p.capacity
  }

  /** The first of the smallest empty pages that hold the size. */
  predicate IsBestEmpty(pages: seq<Page>, size: nat, i: nat) {
    && i < |pages| && EmptyHolds(pages[i], size)
    && forall j :: 0 <= j < |pages| && EmptyHolds(pages[j], size) ==>
         pages[i].capacity <= pages[j].capacity && (j < i ==> pages[i].capacity < pages[j].capacity)
  }

  predicate CurrentFits(desc: HeapDesc, pages: seq<Page>, current: Option<nat>, size: nat)
    requires DescOk(desc)
  {
    current.Some? && exists i :: 0 <= i < |pages| && pages[i].id == current.value && Fits(desc, pages[i], size)
  }

  /** The heap need not create a page for a chunk of this size. */
  predicate Served(desc: HeapDesc, pages: seq<Page>, current: Option<nat>, size: nat)
    requires DescOk(desc)
  {
    CurrentFits(desc, pages, current, size) || exists i :: 0 <= i < |pages| && EmptyHolds(pages[i], size)
  }

  /** The chunk is the next one of a page, which from now on counts as used last. */
  predicate Takes(desc: HeapDesc, pages: seq<Page>, i: int, serial: nat, c: Chunk, pages': seq<Page>)
    requires DescOk(desc)
  {
    && 0 <= i < |pages| && c.page == pages[i].id
    && c.offset == Arithmetic.CalcAligned(pages[i].nextOffset, desc.alignment)
    && pages' == pages[i := Bump(desc, pages[i], c.size, serial + 1)]
  }

  /**
   Where a chunk comes from and what becomes of the pages: the current page if the chunk fits, else the best empty page
   that holds it, else a new page of the first size in the chain of growing sizes that holds it.
   */
  ghost predicate Chosen(desc: HeapDesc, pages: seq<Page>, current: Option<nat>, nextId: nat, nextSize: nat,
                         serial: nat, c: Chunk, pages': seq<Page>)
    requires DescOk(desc) && nextSize > 0
  {
    if CurrentFits(desc, pages, current, c.size) then
      Some(c.page) == current && exists i :: 0 <= i < |pages| && Takes(desc, pages, i, serial, c, pages')
    else if exists i :: 0 <= i < |pages| && EmptyHolds(pages[i], c.size) then
      exists i: nat :: IsBestEmpty(pages, c.size, i) && Takes(desc, pages, i, serial, c, pages')
    else Takes(desc, pages + [NewPage(nextId, NewPageSize(desc, nextSize, c.size))], |pages|, serial, c, pages')
  }

  // ---------- Returning chunks ----------

  /** One chunk back in its page, which starts over and counts as used last if it was the page's only one. */
  function ReturnTo(pages: seq<Page>, c: Chunk, serial: nat): seq<Page> {
    seq(|pages|, i requires 0 <= i < |pages| =>
      if pages[i].id == c.page && c.size <= pages[i].liveSize && pages[i].liveChunks > 0
      then Unbump(pages[i], c.size, serial + 1) else pages[i])
  }

  ghost function SerialAfter(pages: seq<Page>, c: Chunk, serial: nat): nat {
    if exists i :: 0 <= i < |pages| && pages[i].id == c.page && pages[i].liveChunks == 1 then serial + 1 else serial
  }

  ghost function ReturnAll(pages: seq<Page>, chunks: seq<Chunk>, serial: nat): (seq<Page>, nat) {
    if chunks == [] then (pages, serial)
    else
      var n := |chunks| - 1;
      var (before, s) := ReturnAll(pages, chunks[..n], serial);
      (ReturnTo(before, chunks[n], s), SerialAfter(before, chunks[n], s))
  }

  lemma ReturnedAt(pages: seq<Page>, c: Chunk, nextId: nat, serial: nat, i: nat)
    requires PagesInOrder(pages, nextId, serial) && i < |pages| && pages[i].id == c.page
    requires c.size <= pages[i].liveSize && pages[i].liveChunks > 0
    ensures ReturnTo(pages, c, serial) == pages[i := Unbump(pages[i], c.size, serial + 1)]
    ensures SerialAfter(pages, c, serial) == if pages[i].liveChunks == 1 then serial + 1 else serial
  {
    assert forall j :: 0 <= j < |pages| && j != i ==> pages[j].id != c.page;
  }

  /** A page that becomes empty starts over, and no page has been used later. */
  lemma EmptiedUsedLast(pages: seq<Page>, c: Chunk, nextId: nat, serial: nat, i: nat)
    requires PagesInOrder(pages, nextId, serial) && i < |pages| && pages[i].id == c.page
    requires pages[i].liveChunks == 1 && c.size == pages[i].liveSize
    ensures var after := ReturnTo(pages, c, serial);
      |after| == |pages| && Empty(after[i]) && after[i].nextOffset == 0 && after[i].liveSize == 0
      && after[i].lastUsed == SerialAfter(pages, c, serial)
      && forall j :: 0 <= j < |after| && j != i ==> after[j] == pages[j] && after[j].lastUsed < after[i].lastUsed
  {
    assert pages[i].id == c.page && pages[i].liveChunks == 1;
    assert forall j :: 0 <= j < |pages| && j != i ==> pages[j].id != c.page;
  }

  /** Bump allocation leaves the next page size alone and no more empty capacity. */
  lemma BumpSizes(desc: HeapDesc, pages: seq<Page>, i: nat, size: nat, serial: nat)
    requires DescOk(desc) && i < |pages| && serial > 0
    ensures NextPageSize(desc, pages[i := Bump(desc, pages[i], size, serial)]) == NextPageSize(desc, pages)
    ensures Total(RetainedOf, pages[i := Bump(desc, pages[i], size, serial)])
         == Total(RetainedOf, pages) - if Empty(pages[i]) then pages[i].capacity else 0
    ensures forall k :: 0 <= k < |pages| && k != i && pages[k].lastUsed > 0 ==>
      pages[i := Bump(desc, pages[i], size, serial)][k].lastUsed > 0
    ensures pages[i := Bump(desc, pages[i], size, serial)][i].lastUsed > 0
  {
    TotalUpdate(RetainedOf, pages, i, Bump(desc, pages[i], size, serial));
    NextOfSameCapacities(desc, pages, pages[i := Bump(desc, pages[i], size, serial)]);
  }

  /** What the heap owes its callers after a bump allocation that used up any excess of empty capacity. */
  lemma StillValid(desc: HeapDesc, pages: seq<Page>, i: nat, size: nat, serial: nat)
    requires DescOk(desc) && i < |pages| && serial > 0
    requires Total(RetainedOf, pages) <= desc.maxRetainedSize + if Empty(pages[i]) then pages[i].capacity else 0
    requires forall k :: 0 <= k < |pages| && k != i ==> pages[k].lastUsed > 0
    ensures var pages' := pages[i := Bump(desc, pages[i], size, serial)];
      Used(pages') && NextPageSize(desc, pages') == NextPageSize(desc, pages)
      && Total(RetainedOf, pages') <= desc.maxRetainedSize
  {
    hide Total, NextPageSize, Bump;
    BumpSizes(desc, pages, i, size, serial);
  }

  lemma CurrentAt(desc: HeapDesc, pages: seq<Page>, live: seq<Lease>, nextId: nat, serial: nat, i: nat, size: nat)
    requires DescOk(desc) && HeapOk(desc, pages, live, nextId, serial) && i < |pages|
    ensures CurrentFits(desc, pages, Some(pages[i].id), size) <==> Fits(desc, pages[i], size)
  {
    hide Fits, LeasesOk, PageOk;
    assert forall j :: 0 <= j < |pages| && pages[j].id == pages[i].id ==> j == i;
  }

  lemma ServedBy(desc: HeapDesc, pages: seq<Page>, current: Option<nat>, size: nat, page: nat)
    requires DescOk(desc) && page <= |pages|
    requires page == |pages| || IsBestEmpty(pages, size, page)
    requires page == |pages| ==> forall j :: 0 <= j < |pages| ==> !EmptyHolds(pages[j], size)
    ensures Served(desc, pages, current, size) <==> CurrentFits(desc, pages, current, size) || page < |pages|
    ensures page < |pages| ==> EmptyHolds(pages[page], size)
  {
  }

  lemma ChosenCurrent(desc: HeapDesc, pages: seq<Page>, current: Option<nat>, nextId: nat, nextSize: nat, serial: nat,
                      c: Chunk, pages': seq<Page>, i: int)
    requires DescOk(desc) && nextSize > 0 && CurrentFits(desc, pages, current, c.size) && Some(c.page) == current
    requires Takes(desc, pages, i, serial, c, pages')
    ensures Chosen(desc, pages, current, nextId, nextSize, serial, c, pages') && Served(desc, pages, current, c.size)
  {
  }

  lemma ChosenEmpty(desc: HeapDesc, pages: seq<Page>, current: Option<nat>, nextId: nat, nextSize: nat, serial: nat,
                    c: Chunk, pages': seq<Page>, page: nat, from: seq<Page>)
    requires DescOk(desc) && nextSize > 0 && !CurrentFits(desc, pages, current, c.size) && page <= |pages|
    requires page < |pages| ==> IsBestEmpty(pages, c.size, page) && from == pages
    requires page == |pages| ==> from == pages + [NewPage(nextId, NewPageSize(desc, nextSize, c.size))]
                                 && forall j :: 0 <= j < |pages| ==> !EmptyHolds(pages[j], c.size)
    requires Takes(desc, from, page, serial, c, pages')
    ensures Chosen(desc, pages, current, nextId, nextSize, serial, c, pages')
  {
    hide Takes;
  }

  lemma NewPageSizes(desc: HeapDesc, pages: seq<Page>, p: Page)
    requires DescOk(desc) && NextPageSize(desc, pages) <= p.capacity <= desc.maxPageSize && Empty(p)
    ensures NextPageSize(desc, pages + [p]) == GrowPageSize(desc, p.capacity)
    ensures Total(RetainedOf, pages + [p]) == Total(RetainedOf, pages) + p.capacity
  {
    NextAfterLargest(desc, pages, p);
    TotalSnoc(RetainedOf, pages, p);
  }

  /** The last attempt never fails. */
  lemma EmptyPageFits(desc: HeapDesc, pages: seq<Page>, live: seq<Lease>, nextId: nat, serial: nat, i: nat, size: nat)
    requires DescOk(desc) && HeapOk(desc, pages, live, nextId, serial)
    requires i < |pages| && Empty(pages[i]) && size <= pages[i].capacity
    ensures Fits(desc, pages[i], size) && Arithmetic.CalcAligned(pages[i].nextOffset, desc.alignment) == 0
  {
    EmptyFits(desc, live, pages[i], size);
    Arithmetic.AlignedZero(desc.alignment);
  }

  lemma InOrder(desc: HeapDesc, pages: seq<Page>, live: seq<Lease>, nextId: nat, serial: nat)
    requires DescOk(desc) && HeapOk(desc, pages, live, nextId, serial)
    ensures PagesInOrder(pages, nextId, serial)
  {
  }

  lemma PageOf(desc: HeapDesc, pages: seq<Page>, live: seq<Lease>, nextId: nat, serial: nat, j: nat)
    requires DescOk(desc) && HeapOk(desc, pages, live, nextId, serial) && j < |live|
    ensures exists i :: 0 <= i < |pages| && pages[i].id == live[j].chunk.page
  {
    assert Housed(desc, pages, live[j].chunk);
  }

  lemma NoPageNoLease(desc: HeapDesc, pages: seq<Page>, live: seq<Lease>, nextId: nat, serial: nat)
    requires DescOk(desc) && HeapOk(desc, pages, live, nextId, serial)
    ensures live != [] ==> pages != []
  {
    if live != [] {
      assert Housed(desc, pages, live[0].chunk);
    }
  }

  /** Without leases no byte is leased and every page is empty. */
  lemma NothingLeased(desc: HeapDesc, pages: seq<Page>, live: seq<Lease>, nextId: nat, serial: nat)
    requires DescOk(desc) && HeapOk(desc, pages, live, nextId, serial)
    ensures live == [] ==> LeasedBytes(live) == 0 && forall i :: 0 <= i < |pages| ==> Empty(pages[i])
  {
    if live == [] {
      forall i | 0 <= i < |pages| ensures Empty(pages[i]) {
        assert PageOk(desc, live, pages[i]);
      }
    }
  }

  /**
   The largest size of 64 bits, rounded to a granularity of 256 bytes: it gets an empty chunk, and so nothing is used.
   */
  method LargestRequest() returns (result: Result, chunk: Chunk, released: bool)
    ensures result == Ok && chunk.size == 0
    ensures !released
  {
    hide NextPageSize, HeapOk, TransientPages.Total;
    var heap := new Heap(HeapDesc(1024, 1024, 0, 256, 256));
    result, chunk := heap.Allocate(0xFFFF_FFFF_FFFF_FFFF, true, 0);
    released := heap.Release();
  }
}
