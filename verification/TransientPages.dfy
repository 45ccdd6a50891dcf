/** Pages, chunks and leases of the transient heap as values, and what one step does to the heap's invariant. */
module TransientPages {
  import Arithmetic
  import opened Sequences

  datatype HeapDesc = HeapDesc(initialPageSize: nat, maxPageSize: nat, maxRetainedSize: nat, alignment: nat,
                               granularity: nat)

  datatype Page = Page(id: nat, capacity: nat, nextOffset: nat, liveSize: nat, liveChunks: nat, lastUsed: nat)

  /** A coarse allocation: a range of the page with this id. */
  datatype Chunk = Chunk(page: nat, offset: nat, size: nat)

  /** A chunk and the arena that holds it. */
  datatype Lease = Lease(owner: nat, chunk: Chunk)

  /** What is asserted of a descriptor; aligning inside a page or rounding its size does not overflow 64 bits. */
  predicate DescOk(desc: HeapDesc) {
    && 0 < desc.initialPageSize <= desc.maxPageSize
    && (desc.maxRetainedSize == 0 || desc.initialPageSize <= desc.maxRetainedSize)
    && 0 < desc.alignment && 0 < desc.granularity
    && desc.maxPageSize + desc.alignment <= Arithmetic.SIZE_LIMIT
    && desc.maxPageSize + desc.granularity <= Arithmetic.SIZE_LIMIT
  }

  /**
   alignAllocationSize: the least multiple of the granularity that is not below the size. If that does not fit 64 bits
   the sum wraps around and what is left of it is rounded down to nothing.
   */
  function AlignAllocationSize(desc: HeapDesc, size: Arithmetic.Size): (r: Arithmetic.Size)
    requires DescOk(desc)
    ensures if size + desc.granularity - 1 < Arithmetic.SIZE_LIMIT then
              r == Arithmetic.CalcAligned(size, desc.granularity)
            else r == 0
    ensures size <= desc.maxPageSize ==> size <= r < size + desc.granularity && r % desc.granularity == 0
  {
    RoundedInSize(size, desc.granularity);
    (size + desc.granularity - 1) % Arithmetic.SIZE_LIMIT / desc.granularity * desc.granularity
  }

  lemma RoundedInSize(size: Arithmetic.Size, granularity: nat)
    requires 0 < granularity <= Arithmetic.SIZE_LIMIT
    ensures var r := (size + granularity - 1) % Arithmetic.SIZE_LIMIT / granularity * granularity;
      0 <= r < Arithmetic.SIZE_LIMIT
      && if size + granularity - 1 < Arithmetic.SIZE_LIMIT then r == Arithmetic.CalcAligned(size, granularity)
         else r == 0
  {
    var sum := size + granularity - 1;
    if sum < Arithmetic.SIZE_LIMIT {
      assert sum % Arithmetic.SIZE_LIMIT == sum;
      RoundedDown(sum, granularity);
    } else {
      assert sum % Arithmetic.SIZE_LIMIT == sum - Arithmetic.SIZE_LIMIT < granularity;
      SmallQuotient(sum - Arithmetic.SIZE_LIMIT, granularity);
    }
  }

  lemma RoundedDown(sum: nat, granularity: nat)
    requires granularity > 0
    ensures sum / granularity * granularity <= sum
  {
    assert sum == granularity * (sum / granularity) + sum % granularity;
  }

  lemma SmallQuotient(a: nat, b: nat)
    requires a < b
    ensures a / b == 0
  {
  }

  // ---------- Page sizes ----------

  /** growPageSize: twice the size, but not beyond the largest page size. */
  function GrowPageSize(desc: HeapDesc, size: nat): (r: nat)
    ensures size < desc.maxPageSize ==> size <= r <= desc.maxPageSize && (size > 0 ==> size < r <= 2 * size)
    ensures r == Arithmetic.Min(2 * size, desc.maxPageSize)
  {
    if size >= desc.maxPageSize then desc.maxPageSize
    else if size > desc.maxPageSize / 2 then desc.maxPageSize else size * 2
  }

  /**
   The first size that holds a request in the chain of growing sizes, or the request itself if the largest is too
   small.
   */
  function NewPageSize(desc: HeapDesc, size: nat, request: nat): nat
    requires size > 0
    decreases desc.maxPageSize - size
  {
    if request <= size then size
    else if size >= desc.maxPageSize then request
    else NewPageSize(desc, GrowPageSize(desc, size), request)
  }

  /** The next page size computed from scratch. */
  function NextPageSize(desc: HeapDesc, pages: seq<Page>): (r: nat)
    requires DescOk(desc)
    ensures desc.initialPageSize <= r <= desc.maxPageSize
  {
    if pages == [] then desc.initialPageSize
    else
      var rest, p := NextPageSize(desc, pages[..|pages| - 1]), pages[|pages| - 1];
      if desc.initialPageSize <= p.capacity <= desc.maxPageSize
      then Arithmetic.Max(rest, GrowPageSize(desc, p.capacity)) else rest
  }

  /** A page at least as large as the next page size alone decides the size after it. */
  lemma NextAfterLargest(desc: HeapDesc, pages: seq<Page>, p: Page)
    requires DescOk(desc) && NextPageSize(desc, pages) <= p.capacity <= desc.maxPageSize
    ensures NextPageSize(desc, pages + [p]) == GrowPageSize(desc, p.capacity)
  {
    assert (pages + [p])[..|pages|] == pages;
  }

  /** The next page size is the largest of the initial size and what the pages' sizes grow to. */
  lemma {:induction false} NextPageSizeIsMaximum(desc: HeapDesc, pages: seq<Page>)
    requires DescOk(desc)
    requires forall p :: p in pages ==> desc.initialPageSize <= p.capacity <= desc.maxPageSize
    ensures forall p :: p in pages ==> GrowPageSize(desc, p.capacity) <= NextPageSize(desc, pages)
    ensures NextPageSize(desc, pages) == desc.initialPageSize
            || exists p :: p in pages && NextPageSize(desc, pages) == GrowPageSize(desc, p.capacity)
  {
    if pages != [] {
      var init, last := pages[..|pages| - 1], pages[|pages| - 1];
      NextPageSizeIsMaximum(desc, init);
      assert pages == init + [last];
      assert last in pages;
    }
  }

  predicate SameCapacities(a: seq<Page>, b: seq<Page>) {
    |a| == |b| && forall i :: 0 <= i < |a| ==> a[i].capacity == b[i].capacity
  }

  lemma {:induction false} NextOfSameCapacities(desc: HeapDesc, a: seq<Page>, b: seq<Page>)
    requires DescOk(desc) && SameCapacities(a, b)
    ensures NextPageSize(desc, a) == NextPageSize(desc, b)
  {
    if a != [] {
      NextOfSameCapacities(desc, a[..|a| - 1], b[..|b| - 1]);
    }
  }

  // ---------- Totals over pages ----------

  datatype Measure = CapacityOf | LiveSizeOf | RetainedOf

  predicate Empty(p: Page) {
    p.liveChunks == 0
  }

  function Amount(m: Measure, p: Page): nat {
    match m
    case CapacityOf => p.capacity
    case LiveSizeOf => p.liveSize
    case RetainedOf => if Empty(p) then p.capacity else 0
  }

  function Total(m: Measure, pages: seq<Page>): nat {
    if pages == [] then 0 else Total(m, pages[..|pages| - 1]) + Amount(m, pages[|pages| - 1])
  }

  lemma TotalSnoc(m: Measure, pages: seq<Page>, p: Page)
    ensures Total(m, pages + [p]) == Total(m, pages) + Amount(m, p)
  {
    assert (pages + [p])[..|pages|] == pages;
  }

  lemma {:induction false} TotalUpdate(m: Measure, pages: seq<Page>, i: nat, p: Page)
    requires i < |pages|
    ensures Total(m, pages[i := p]) == Total(m, pages) - Amount(m, pages[i]) + Amount(m, p)
    ensures Amount(m, pages[i]) <= Total(m, pages)
  {
    var n := |pages| - 1;
    if i == n {
      assert pages[i := p][..n] == pages[..n];
    } else {
      TotalUpdate(m, pages[..n], i, p);
      assert pages[i := p][..n] == pages[..n][i := p];
    }
  }

  lemma {:induction false} TotalWithout(m: Measure, pages: seq<Page>, i: nat)
    requires i < |pages|
    ensures Total(m, Without(pages, i)) == Total(m, pages) - Amount(m, pages[i])
  {
    var n := |pages| - 1;
    if i == n {
      assert Without(pages, i) == pages[..n];
    } else {
      TotalWithout(m, pages[..n], i);
      WithoutInit(pages, i);
      TotalSnoc(m, Without(pages[..n], i), pages[n]);
    }
  }

  lemma TotalPositive(m: Measure, pages: seq<Page>)
    requires Total(m, pages) > 0
    ensures exists i :: 0 <= i < |pages| && Amount(m, pages[i]) > 0
  {
    if Amount(m, pages[|pages| - 1]) == 0 {
      TotalPositive(m, pages[..|pages| - 1]);
      var i :| 0 <= i < |pages| - 1 && Amount(m, pages[..|pages| - 1][i]) > 0;
      assert pages[i] == pages[..|pages| - 1][i];
    }
  }

  // ---------- Sums over leases ----------

  function LiveBytes(live: seq<Lease>, page: nat): nat {
    if live == [] then 0
    else
      var c := live[|live| - 1].chunk;
      LiveBytes(live[..|live| - 1], page) + if c.page == page then c.size else 0
  }

  function LiveCount(live: seq<Lease>, page: nat): nat {
    if live == [] then 0
    else LiveCount(live[..|live| - 1], page) + if live[|live| - 1].chunk.page == page then 1 else 0
  }

  function LeasedBytes(live: seq<Lease>): nat {
    if live == [] then 0 else LeasedBytes(live[..|live| - 1]) + live[|live| - 1].chunk.size
  }

  /** The chunks of one arena, oldest first. */
  function OwnedBy(live: seq<Lease>, owner: nat): seq<Chunk> {
    if live == [] then []
    else
      var l := live[|live| - 1];
      OwnedBy(live[..|live| - 1], owner) + if l.owner == owner then [l.chunk] else []
  }

  lemma LeaseMore(live: seq<Lease>, l: Lease, page: nat, owner: nat)
    ensures LiveBytes(live + [l], page) == LiveBytes(live, page) + if l.chunk.page == page then l.chunk.size else 0
    ensures LiveCount(live + [l], page) == LiveCount(live, page) + if l.chunk.page == page then 1 else 0
    ensures LeasedBytes(live + [l]) == LeasedBytes(live) + l.chunk.size
    ensures OwnedBy(live + [l], owner) == OwnedBy(live, owner) + if l.owner == owner then [l.chunk] else []
  {
    assert (live + [l])[..|live|] == live;
  }

  lemma {:induction false} LeaseLess(live: seq<Lease>, j: nat, page: nat)
    requires j < |live|
    ensures LiveBytes(Without(live, j), page)
         == LiveBytes(live, page) - if live[j].chunk.page == page then live[j].chunk.size else 0
    ensures LiveCount(Without(live, j), page) == LiveCount(live, page) - if live[j].chunk.page == page then 1 else 0
    ensures LeasedBytes(Without(live, j)) == LeasedBytes(live) - live[j].chunk.size
  {
    var n := |live| - 1;
    if j == n {
      assert Without(live, j) == live[..n];
    } else {
      LeaseLess(live[..n], j, page);
      WithoutInit(live, j);
      LeaseMore(Without(live[..n], j), live[n], page, 0);
    }
  }

  lemma {:induction false} NoBytes(live: seq<Lease>, page: nat)
    requires LiveCount(live, page) == 0
    ensures LiveBytes(live, page) == 0
    ensures forall j :: 0 <= j < |live| ==> live[j].chunk.page != page
  {
    if live != [] {
      NoBytes(live[..|live| - 1], page);
    }
  }

  lemma {:induction false} NoLease(live: seq<Lease>, page: nat)
    requires forall j :: 0 <= j < |live| ==> live[j].chunk.page != page
    ensures LiveCount(live, page) == 0 && LiveBytes(live, page) == 0
  {
    if live != [] {
      NoLease(live[..|live| - 1], page);
    }
  }

  // ---------- The invariant ----------

  predicate PageOk(desc: HeapDesc, live: seq<Lease>, p: Page) {
    && desc.initialPageSize <= p.capacity <= desc.maxPageSize
    && p.nextOffset <= p.capacity && (Empty(p) ==> p.nextOffset == 0)
    && p.liveSize == LiveBytes(live, p.id) && p.liveChunks == LiveCount(live, p.id)
  }

  /** Ids grow along the list; no two pages were used last at the same time. */
  predicate PagesInOrder(pages: seq<Page>, nextId: nat, serial: nat) {
    && (forall i :: 0 <= i < |pages| ==> pages[i].id < nextId && pages[i].lastUsed <= serial)
    && (forall i, j :: 0 <= i < j < |pages| ==> pages[i].id < pages[j].id)
    && (forall i, j :: 0 <= i < j < |pages| ==> pages[i].lastUsed != pages[j].lastUsed)
  }

  predicate Within(desc: HeapDesc, c: Chunk, p: Page)
    requires DescOk(desc)
  {
    p.id == c.page && c.offset % desc.alignment == 0 && c.offset + c.size <= p.nextOffset
  }

  predicate Housed(desc: HeapDesc, pages: seq<Page>, c: Chunk)
    requires DescOk(desc)
  {
    exists i :: 0 <= i < |pages| && Within(desc, c, pages[i])
  }

  predicate Apart(a: Chunk, b: Chunk) {
    a.page != b.page || a.offset + a.size <= b.offset || b.offset + b.size <= a.offset
  }

  /** Every leased chunk is aligned and within a page; no two overlap. */
  ghost predicate LeasesOk(desc: HeapDesc, pages: seq<Page>, live: seq<Lease>)
    requires DescOk(desc)
  {
    && (forall j :: 0 <= j < |live| ==> Housed(desc, pages, live[j].chunk))
    && (forall j, k :: 0 <= j < k < |live| ==> Apart(live[j].chunk, live[k].chunk))
  }

  ghost predicate HeapOk(desc: HeapDesc, pages: seq<Page>, live: seq<Lease>, nextId: nat, serial: nat)
    requires DescOk(desc)
  {
    && PagesInOrder(pages, nextId, serial) && LeasesOk(desc, pages, live)
    && (forall i :: 0 <= i < |pages| ==> PageOk(desc, live, pages[i]))
  }

  // ---------- Bump allocation in one page ----------

  predicate Fits(desc: HeapDesc, p: Page, size: nat)
    requires DescOk(desc)
  {
    Arithmetic.CalcAligned(p.nextOffset, desc.alignment) + size <= p.capacity
  }

  function Bump(desc: HeapDesc, p: Page, size: nat, serial: nat): Page
    requires DescOk(desc)
  {
    p.(nextOffset := Arithmetic.CalcAligned(p.nextOffset, desc.alignment) + size, liveSize := p.liveSize + size,
       liveChunks := p.liveChunks + 1, lastUsed := serial)
  }

  /** An empty page takes any chunk that is not larger than the page. */
  lemma EmptyFits(desc: HeapDesc, live: seq<Lease>, p: Page, size: nat)
    requires DescOk(desc) && PageOk(desc, live, p) && Empty(p)
    ensures Fits(desc, p, size) <==> size <= p.capacity
  {
    Arithmetic.AlignedZero(desc.alignment);
  }

  lemma BumpKeeps(desc: HeapDesc, pages: seq<Page>, live: seq<Lease>, nextId: nat, serial: nat, i: nat, size: nat,
                  owner: nat)
    requires DescOk(desc) && HeapOk(desc, pages, live, nextId, serial) && i < |pages|
    requires Fits(desc, pages[i], size)
    ensures HeapOk(desc, pages[i := Bump(desc, pages[i], size, serial + 1)],
                   live + [Lease(owner, Chunk(pages[i].id, Arithmetic.CalcAligned(pages[i].nextOffset, desc.alignment),
                                              size))],
                   nextId, serial + 1)
  {
    hide LiveBytes, LiveCount;
    var p := pages[i];
    var l := Lease(owner, Chunk(p.id, Arithmetic.CalcAligned(p.nextOffset, desc.alignment), size));
    var pages', live' := pages[i := Bump(desc, p, size, serial + 1)], live + [l];
    BumpLeases(desc, pages, live, i, Bump(desc, p, size, serial + 1), l);
    forall k | 0 <= k < |pages'| ensures PageOk(desc, live', pages'[k]) {
      assert PageOk(desc, live, pages[k]);
      LeaseMore(live, l, pages[k].id, owner);
      assert k != i ==> pages[k].id != p.id;
    }
  }

  lemma BumpLeases(desc: HeapDesc, pages: seq<Page>, live: seq<Lease>, i: nat, p': Page, l: Lease)
    requires DescOk(desc) && LeasesOk(desc, pages, live) && i < |pages| && p'.id == pages[i].id
    requires pages[i].nextOffset <= l.chunk.offset && p'.nextOffset >= pages[i].nextOffset && Within(desc, l.chunk, p')
    requires forall a, b :: 0 <= a < b < |pages| ==> pages[a].id < pages[b].id
    ensures LeasesOk(desc, pages[i := p'], live + [l])
  {
    var pages', live' := pages[i := p'], live + [l];
    forall j | 0 <= j < |live'|
      ensures Housed(desc, pages', live'[j].chunk)
      ensures j < |live| ==> Apart(live'[j].chunk, l.chunk)
    {
      if j < |live| {
        var k :| 0 <= k < |pages| && Within(desc, live[j].chunk, pages[k]);
        assert Within(desc, live'[j].chunk, pages'[k]);
      } else {
        assert Within(desc, live'[j].chunk, pages'[i]);
      }
    }
    forall a, b | 0 <= a < b < |live'| ensures Apart(live'[a].chunk, live'[b].chunk) {
      if b < |live| {
        assert live'[a] == live[a] && live'[b] == live[b];
      } else {
        assert live'[b] == l && Apart(live'[a].chunk, l.chunk);
      }
    }
  }

  // ---------- A new page ----------

  function NewPage(id: nat, capacity: nat): Page {
    Page(id, capacity, 0, 0, 0, 0)
  }

  lemma NewPageKeeps(desc: HeapDesc, pages: seq<Page>, live: seq<Lease>, nextId: nat, serial: nat, capacity: nat)
    requires DescOk(desc) && HeapOk(desc, pages, live, nextId, serial)
    requires desc.initialPageSize <= capacity <= desc.maxPageSize
    requires forall i :: 0 <= i < |pages| ==> pages[i].lastUsed > 0
    ensures HeapOk(desc, pages + [NewPage(nextId, capacity)], live, nextId + 1, serial)
  {
    hide LiveBytes, LiveCount;
    var pages' := pages + [NewPage(nextId, capacity)];
    forall j | 0 <= j < |live|
      ensures live[j].chunk.page != nextId
      ensures Housed(desc, pages', live[j].chunk)
    {
      assert Housed(desc, pages, live[j].chunk);
      var i :| 0 <= i < |pages| && Within(desc, live[j].chunk, pages[i]);
      assert Within(desc, live[j].chunk, pages'[i]);
    }
    NoLease(live, nextId);
    forall i | 0 <= i < |pages'| ensures PageOk(desc, live, pages'[i]) {
      if i < |pages| {
        assert pages'[i] == pages[i] && PageOk(desc, live, pages[i]);
      }
    }
  }

  // ---------- A chunk comes back ----------

  function Unbump(p: Page, size: nat, serial: nat): Page
    requires size <= p.liveSize && 0 < p.liveChunks
  {
    var q := p.(liveSize := p.liveSize - size, liveChunks := p.liveChunks - 1);
    if p.liveChunks == 1 then q.(nextOffset := 0, lastUsed := serial) else q
  }

  lemma {:induction false} LeaseCounted(live: seq<Lease>, j: nat)
    requires j < |live|
    ensures LiveCount(live, live[j].chunk.page) > 0 && LiveBytes(live, live[j].chunk.page) >= live[j].chunk.size
    ensures LeasedBytes(live) >= live[j].chunk.size
  {
    if j < |live| - 1 {
      LeaseCounted(live[..|live| - 1], j);
    }
  }

  lemma UnbumpKeeps(desc: HeapDesc, pages: seq<Page>, live: seq<Lease>, nextId: nat, serial: nat, j: nat, i: nat)
    requires DescOk(desc) && HeapOk(desc, pages, live, nextId, serial) && j < |live| && i < |pages|
    requires live[j].chunk.page == pages[i].id
    ensures pages[i].liveChunks > 0 && live[j].chunk.size <= pages[i].liveSize
    ensures HeapOk(desc, pages[i := Unbump(pages[i], live[j].chunk.size, serial + 1)], Without(live, j), nextId,
                   serial + if pages[i].liveChunks == 1 then 1 else 0)
  {
    hide LiveBytes, LiveCount, LeasedBytes;
    var p, size := pages[i], live[j].chunk.size;
    LeaseCounted(live, j);
    assert PageOk(desc, live, p);
    var pages', live' := pages[i := Unbump(p, size, serial + 1)], Without(live, j);
    forall k | 0 <= k < |pages'| ensures PageOk(desc, live', pages'[k]) {
      assert PageOk(desc, live, pages[k]);
      LeaseLess(live, j, pages[k].id);
      assert k != i ==> pages[k].id != p.id;
    }
    UnbumpLeases(desc, pages, live, j, i, pages'[i]);
  }

  lemma UnbumpLeases(desc: HeapDesc, pages: seq<Page>, live: seq<Lease>, j: nat, i: nat, p': Page)
    requires DescOk(desc) && LeasesOk(desc, pages, live) && j < |live| && i < |pages|
    requires p'.id == pages[i].id && p'.liveChunks == LiveCount(Without(live, j), p'.id)
    requires p'.liveChunks > 0 ==> p'.nextOffset == pages[i].nextOffset
    ensures LeasesOk(desc, pages[i := p'], Without(live, j))
  {
    hide LiveCount;
    var pages', live' := pages[i := p'], Without(live, j);
    if p'.liveChunks == 0 {
      NoBytes(live', p'.id);
    }
    forall k | 0 <= k < |live'| ensures Housed(desc, pages', live'[k].chunk) {
      var l := if k < j then k else k + 1;
      assert live'[k] == live[l];
      var m :| 0 <= m < |pages| && Within(desc, live[l].chunk, pages[m]);
      assert Within(desc, live'[k].chunk, pages'[m]);
    }
    forall a, b | 0 <= a < b < |live'| ensures Apart(live'[a].chunk, live'[b].chunk) {
      assert live'[a] == live[if a < j then a else a + 1] && live'[b] == live[if b < j then b else b + 1];
    }
  }

  // ---------- An empty page goes away ----------

  lemma DropKeeps(desc: HeapDesc, pages: seq<Page>, live: seq<Lease>, nextId: nat, serial: nat, i: nat)
    requires DescOk(desc) && HeapOk(desc, pages, live, nextId, serial) && i < |pages| && Empty(pages[i])
    ensures pages[i].liveSize == 0
    ensures HeapOk(desc, Without(pages, i), live, nextId, serial)
  {
    hide LiveCount, LiveBytes, Housed, PagesInOrder;
    var pages' := Without(pages, i);
    assert PageOk(desc, live, pages[i]);
    NoBytes(live, pages[i].id);
    DropOrder(pages, nextId, serial, i);
    forall k | 0 <= k < |pages'| ensures PageOk(desc, live, pages'[k]) {
      assert PageOk(desc, live, pages[if k < i then k else k + 1]);
    }
    forall j | 0 <= j < |live| ensures Housed(desc, pages', live[j].chunk) {
      HousedElsewhere(desc, pages, i, live[j].chunk);
    }
  }

  lemma DropOrder(pages: seq<Page>, nextId: nat, serial: nat, i: nat)
    requires PagesInOrder(pages, nextId, serial) && i < |pages|
    ensures PagesInOrder(Without(pages, i), nextId, serial)
  {
  }

  lemma HousedElsewhere(desc: HeapDesc, pages: seq<Page>, i: nat, c: Chunk)
    requires DescOk(desc) && Housed(desc, pages, c) && i < |pages| && pages[i].id != c.page
    ensures Housed(desc, Without(pages, i), c)
  {
    var k :| 0 <= k < |pages| && Within(desc, c, pages[k]);
    assert Within(desc, c, Without(pages, i)[if k < i then k else k - 1]);
  }

  /** Every page has been used. */
  predicate Used(pages: seq<Page>) {
    forall i :: 0 <= i < |pages| ==> pages[i].lastUsed > 0
  }

  // ---------- Whose lease is whose ----------

  /** Where the k-th chunk of an owner stands among the leases. */
  function Position(live: seq<Lease>, owner: nat, k: nat): (j: nat)
    requires k < |OwnedBy(live, owner)|
    ensures j < |live| && live[j] == Lease(owner, OwnedBy(live, owner)[k])
  {
    var n := |live| - 1;
    if k < |OwnedBy(live[..n], owner)| then Position(live[..n], owner, k) else n
  }

  lemma {:induction false} PositionsGrow(live: seq<Lease>, owner: nat, k: nat, l: nat)
    requires k < l < |OwnedBy(live, owner)|
    ensures Position(live, owner, k) < Position(live, owner, l)
  {
    var n := |live| - 1;
    if l < |OwnedBy(live[..n], owner)| {
      PositionsGrow(live[..n], owner, k, l);
    }
  }

  /** Two chunks held by two arenas, or twice by one, never overlap. */
  lemma OwnedApart(desc: HeapDesc, pages: seq<Page>, live: seq<Lease>, a: nat, k: nat, b: nat, l: nat)
    requires DescOk(desc) && LeasesOk(desc, pages, live)
    requires k < |OwnedBy(live, a)| && l < |OwnedBy(live, b)| && (a != b || k != l)
    ensures Apart(OwnedBy(live, a)[k], OwnedBy(live, b)[l])
  {
    hide OwnedBy, Position;
    var i, j := Position(live, a, k), Position(live, b, l);
    if a == b {
      if k < l {
        PositionsGrow(live, a, k, l);
      } else {
        PositionsGrow(live, a, l, k);
      }
    }
    assert i < j || j < i;
  }

  /** An owner's oldest lease is where its first chunk stands; without it, all else stays. */
  lemma {:induction false} ReturnFirst(live: seq<Lease>, owner: nat)
    requires OwnedBy(live, owner) != []
    ensures OwnedBy(Without(live, Position(live, owner, 0)), owner) == OwnedBy(live, owner)[1..]
    ensures forall o :: o != owner ==> OwnedBy(Without(live, Position(live, owner, 0)), o) == OwnedBy(live, o)
  {
    var n := |live| - 1;
    var j := Position(live, owner, 0);
    if OwnedBy(live[..n], owner) == [] {
      assert Without(live, j) == live[..n];
    } else {
      ReturnFirst(live[..n], owner);
      var rest := Without(live[..n], j);
      WithoutInit(live, j);
      forall o
        ensures OwnedBy(Without(live, j), o)
             == OwnedBy(rest, o) + if live[n].owner == o then [live[n].chunk] else []
      {
        LeaseMore(rest, live[n], 0, o);
      }
    }
  }
}
