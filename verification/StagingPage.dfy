/** A page of the staging heap: aligned first fit, splitting and coalescing over its node list. */
module StagingPage {
  import Arithmetic
  import opened NodeList
  import Sequences
  import opened Wrappers

  /** std::thread::id; 0 is the id of no thread. */
  type ThreadId = nat
  const NO_THREAD: ThreadId := 0

  /** [offset, offset + size) lies in the page and meets no live range. */
  predicate FreeRange(nodes: seq<Node>, capacity: nat, offset: nat, size: nat) {
    && offset + size <= capacity
    && forall n :: n in Live(nodes) ==> n.End() <= offset || offset + size <= n.offset
  }

  /** What an allocation asks for: an aligned offset at which a free range of the size starts. */
  predicate Candidate(nodes: seq<Node>, capacity: nat, size: nat, alignment: nat, offset: nat)
    requires alignment > 0
  {
    offset % alignment == 0 && FreeRange(nodes, capacity, offset, size)
  }

  /** The test of the scan loop on one node. */
  predicate NodeFits(n: Node, size: nat, alignment: nat)
    requires alignment > 0
  {
    n.free && Arithmetic.CalcAligned(n.offset, alignment) + size <= n.End()
  }

  /** What a node becomes when a block is cut out of it: free prefix, the block, free suffix. */
  function Split(n: Node, offset: nat, size: nat, metadata: int): (r: seq<Node>)
    requires n.offset <= offset && offset + size <= n.End()
  {
    (if offset > n.offset then [Node(n.offset, offset - n.offset, true, n.metadata)] else [])
    + [Node(offset, size, false, metadata)]
    + (if n.End() > offset + size then [Node(offset + size, n.End() - (offset + size), true, 0)] else [])
  }

  /** The node that becomes the block: the free prefix stays, the suffix is cut later. */
  function Prefixed(n: Node, offset: nat): seq<Node>
    requires n.offset < offset <= n.End()
  {
    [n.(size := offset - n.offset), Node(offset, n.End() - offset, true, 0)]
  }

  lemma {:induction false} CoveringNode(nodes: seq<Node>, k: nat, from: nat, to: nat, x: nat) returns (i: nat)
    requires Tiles(nodes, from, to) && from <= x < to
    requires k < |nodes| && nodes[k].offset <= x
    ensures k <= i < |nodes| && nodes[i].offset <= x < nodes[i].End()
    decreases |nodes| - k
  {
    if x < nodes[k].End() {
      i := k;
    } else {
      assert k < |nodes| - 1;
      assert Follows(nodes[k], nodes[k + 1]);
      i := CoveringNode(nodes, k + 1, from, to, x);
    }
  }

  /** Because free neighbours are always merged, a free range lies inside a single free node. */
  lemma RangeInOneNode(nodes: seq<Node>, capacity: nat, offset: nat, size: nat) returns (i: nat)
    requires Tiles(nodes, 0, capacity) && size > 0 && FreeRange(nodes, capacity, offset, size)
    ensures i < |nodes| && nodes[i].free && nodes[i].offset <= offset && offset + size <= nodes[i].End()
  {
    i := CoveringNode(nodes, 0, 0, capacity, offset);
    assert nodes[i] in nodes && nodes[i].free;
    if i < |nodes| - 1 {
      assert Follows(nodes[i], nodes[i + 1]);
      assert nodes[i + 1] in Live(nodes);
      assert nodes[i + 1].size > 0;
    }
  }

  /** A range inside a free node meets no live range. */
  lemma InsideFreeNode(nodes: seq<Node>, capacity: nat, i: nat, offset: nat, size: nat)
    requires Tiles(nodes, 0, capacity) && i < |nodes| && nodes[i].free
    requires nodes[i].offset <= offset && offset + size <= nodes[i].End()
    ensures FreeRange(nodes, capacity, offset, size)
  {
    WithinBounds(nodes, i, 0, capacity);
    forall n | n in Live(nodes) ensures n.End() <= offset || offset + size <= n.offset {
      var j :| 0 <= j < |nodes| && nodes[j] == n;
      if j < i {
        Ordered(nodes, j, i);
      } else if i < j {
        Ordered(nodes, i, j);
      }
    }
  }

  /** First fit is lowest fit: the first node that fits yields the least candidate offset. */
  lemma FirstFitIsLeast(nodes: seq<Node>, capacity: nat, size: nat, alignment: nat, k: nat)
    requires Tiles(nodes, 0, capacity) && size > 0 && alignment > 0
    requires k < |nodes| && NodeFits(nodes[k], size, alignment)
    requires forall i :: 0 <= i < k ==> !NodeFits(nodes[i], size, alignment)
    ensures var o := Arithmetic.CalcAligned(nodes[k].offset, alignment);
            && Candidate(nodes, capacity, size, alignment, o)
            && forall o' :: Candidate(nodes, capacity, size, alignment, o') ==> o <= o'
  {
    var o := Arithmetic.CalcAligned(nodes[k].offset, alignment);
    InsideFreeNode(nodes, capacity, k, o, size);
    forall o' | Candidate(nodes, capacity, size, alignment, o') ensures o <= o' {
      var i := RangeInOneNode(nodes, capacity, o', size);
      Arithmetic.CalcAlignedLeast(nodes[i].offset, alignment, o');
      assert NodeFits(nodes[i], size, alignment);
      if k < i {
        Ordered(nodes, k, i);
      }
    }
  }

  /** If no node fits there is no candidate at all: the scan is complete. */
  lemma NoFitNoCandidate(nodes: seq<Node>, capacity: nat, size: nat, alignment: nat)
    requires Tiles(nodes, 0, capacity) && size > 0 && alignment > 0
    requires forall n :: n in nodes ==> !NodeFits(n, size, alignment)
    ensures forall o :: !Candidate(nodes, capacity, size, alignment, o)
  {
    forall o | Candidate(nodes, capacity, size, alignment, o) ensures false {
      var i := RangeInOneNode(nodes, capacity, o, size);
      Arithmetic.CalcAlignedLeast(nodes[i].offset, alignment, o);
      assert NodeFits(nodes[i], size, alignment);
    }
  }

  lemma SplitTiles(pre: seq<Node>, n: Node, post: seq<Node>, capacity: nat, offset: nat, size: nat, metadata: int)
    requires Tiles(pre + [n] + post, 0, capacity) && n.free && size > 0
    requires n.offset <= offset && offset + size <= n.End()
    ensures Tiles(pre + Split(n, offset, size, metadata) + post, 0, capacity)
  {
    ChainSplit(pre + [n], post);
    ChainSplit(pre, [n]);
    assert n.size > 0;
    TilesSplice(pre, [n], post, Split(n, offset, size, metadata), 0, capacity);
  }

  lemma LiveThree(pre: seq<Node>, mid: seq<Node>, post: seq<Node>)
    ensures Live(pre + mid + post) == Live(pre) + Live(mid) + Live(post)
    ensures LiveSize(pre + mid + post) == LiveSize(pre) + LiveSize(mid) + LiveSize(post)
  {
    LiveConcat(pre + mid, post);
    LiveConcat(pre, mid);
    LiveSizeConcat(pre + mid, post);
    LiveSizeConcat(pre, mid);
  }

  /** Cutting a block out of a free node keeps the partition and adds exactly the block to what is live. */
  lemma SplitNode(nodes: seq<Node>, capacity: nat, k: nat, offset: nat, size: nat, metadata: int)
    requires Tiles(nodes, 0, capacity) && k < |nodes| && nodes[k].free && size > 0
    requires nodes[k].offset <= offset && offset + size <= nodes[k].End()
    ensures var nodes' := nodes[..k] + Split(nodes[k], offset, size, metadata) + nodes[k + 1..];
            && Tiles(nodes', 0, capacity)
            && Live(nodes') == Live(nodes) + {Node(offset, size, false, metadata)}
            && LiveSize(nodes') == LiveSize(nodes) + size
  {
    hide Tiles, Live, LiveSize, Split;
    assert nodes == nodes[..k] + [nodes[k]] + nodes[k + 1..];
    SplitTiles(nodes[..k], nodes[k], nodes[k + 1..], capacity, offset, size, metadata);
    LiveThree(nodes[..k], [nodes[k]], nodes[k + 1..]);
    LiveThree(nodes[..k], Split(nodes[k], offset, size, metadata), nodes[k + 1..]);
    SplitLive(nodes[k], offset, size, metadata);
  }

  lemma LiveOne(n: Node)
    ensures Live([n]) == (if n.free then {} else {n}) && LiveSize([n]) == Used(n)
    ensures Live([]) == {} && LiveSize([]) == 0
  {
    assert [n][..0] == [];
  }

  lemma SplitLive(n: Node, offset: nat, size: nat, metadata: int)
    requires n.free && n.offset <= offset && offset + size <= n.End()
    ensures Live(Split(n, offset, size, metadata)) == {Node(offset, size, false, metadata)}
    ensures LiveSize(Split(n, offset, size, metadata)) == size
    ensures Live([n]) == {} && LiveSize([n]) == 0
  {
    hide Live, LiveSize;
    var prefix := Node(n.offset, offset - n.offset, true, n.metadata);
    var block := Node(offset, size, false, metadata);
    var suffix := Node(offset + size, n.End() - (offset + size), true, 0);
    LiveThree(if offset > n.offset then [prefix] else [], [block], if n.End() > offset + size then [suffix] else []);
    LiveOne(n);
    LiveOne(prefix);
    LiveOne(block);
    LiveOne(suffix);
  }

  class Page {
    const id: int
    const capacity: nat
    var nodes: seq<Node>
    var used: nat
    var lockedToThread: ThreadId
    /** Whether m_mapped is set. */
    var mapped: bool

    ghost predicate Valid()
      reads this
    {
      && Tiles(nodes, 0, capacity)
      && used == LiveSize(nodes)
      && (used == 0 ==> lockedToThread == NO_THREAD)
    }

    constructor (id: int, capacity: nat)
      requires capacity > 0
      ensures Valid() && this.id == id && this.capacity == capacity
      ensures nodes == [Node(0, capacity, true, 0)] && Live(nodes) == {} && used == 0 && !mapped
    {
      this.id := id;
      this.capacity := capacity;
      nodes := [Node(0, capacity, true, 0)];
      used := 0;
      lockedToThread := NO_THREAD;
      mapped := false;
      new;
      assert nodes[..0] == [];
    }

    /**
     Aligned first fit. It fails exactly when no aligned offset starts a large enough free range, and then
     changes nothing; otherwise it takes the least such offset and every other live node stays as it is.
     */
    method AllocNode(size: nat, alignment: nat, metadata: int, lockToThread: ThreadId) returns (res: Option<nat>)
      requires Valid() && size > 0 && alignment > 0
      requires lockedToThread == lockToThread || lockedToThread == NO_THREAD
      modifies this`nodes, this`used, this`lockedToThread
      ensures Valid()
      ensures res.None? <==> forall o :: !Candidate(old(nodes), capacity, size, alignment, o)
      ensures res.None? ==> unchanged(this)
      ensures res.Some? ==>
        && Candidate(old(nodes), capacity, size, alignment, res.value)
        && (forall o :: Candidate(old(nodes), capacity, size, alignment, o) ==> res.value <= o)
        && Live(nodes) == old(Live(nodes)) + {Node(res.value, size, false, metadata)}
        && used == old(used) + size && lockedToThread == lockToThread
    {
      hide Candidate, Live, LiveSize, Split, Tiles;
      var i := 0;
      while i < |nodes|
        invariant 0 <= i <= |nodes| && unchanged(this)
        invariant forall j :: 0 <= j < i ==> !NodeFits(nodes[j], size, alignment)
      {
        if !nodes[i].free {
          i := i + 1;
          continue;
        }
        var alignedOffset := Arithmetic.CalcAligned(nodes[i].offset, alignment);
        var padding := alignedOffset - nodes[i].offset;
        if padding > nodes[i].size || nodes[i].size - padding < size {
          i := i + 1;
          continue;
        }
        FirstFitIsLeast(nodes, capacity, size, alignment, i);
        SplitNode(nodes, capacity, i, alignedOffset, size, metadata);
        CutBlock(i, padding, size, metadata);
        used := used + size;
        lockedToThread := lockToThread;
        return Some(alignedOffset);
      }
      NoFitNoCandidate(nodes, capacity, size, alignment);
      return None;
    }

    /** The list surgery of allocNode on the node at i: insert the prefix, split off the suffix, mark the block. */
    method CutBlock(i: nat, padding: nat, size: nat, metadata: int)
      requires i < |nodes| && nodes[i].free && padding + size <= nodes[i].size
      modifies this`nodes
      ensures nodes == old(nodes)[..i] + Split(old(nodes)[i], old(nodes)[i].offset + padding, size, metadata)
                       + old(nodes)[i + 1..]
    {
      ghost var pre, n, post := nodes[..i], nodes[i], nodes[i + 1..];
      var k := i;
      if padding > 0 {
        nodes := nodes[..k] + Prefixed(nodes[k], nodes[k].offset + padding) + nodes[k + 1..];
        k := k + 1;
      }
      ghost var before := if padding > 0 then pre + [n.(size := padding)] else pre;
      assert nodes[..k] == before && nodes[k + 1..] == post;
      if nodes[k].size > size {
        var suffix := Node(nodes[k].offset + size, nodes[k].size - size, true, 0);
        nodes := nodes[..k] + [nodes[k].(size := size), suffix] + nodes[k + 1..];
      }
      nodes := nodes[k := nodes[k].(free := false, metadata := metadata)];
    }

    /**
     Frees a live node, merging it with free neighbours. Exactly that node stops being live; when nothing is
     left the page is unlocked.
     */
    method FreeNode(i: nat)
      requires Valid() && i < |nodes| && !nodes[i].free
      modifies this`nodes, this`used, this`lockedToThread
      ensures Valid()
      ensures Live(nodes) == old(Live(nodes)) - {old(nodes[i])}
      ensures used == old(used) - old(nodes[i].size)
      ensures lockedToThread == if used == 0 then NO_THREAD else old(lockedToThread)
    {
      FreedSize(nodes, i);
      FreedTiles(nodes, i, capacity);
      used := used - nodes[i].size;
      Merge(i);
      if used == 0 {
        lockedToThread := NO_THREAD;
      }
    }

    /** The list surgery of freeNode: merge with the previous node, with the next one, mark as free. */
    method Merge(i: nat)
      requires i < |nodes| && !nodes[i].free
      modifies this`nodes
      ensures nodes == Freed(old(nodes), i)
    {
      hide SizeOf;
      ghost var before := nodes;
      MergedSize(nodes, i);
      var k := i;
      ghost var p := if i > 0 && before[i - 1].free then i - 1 else i;
      ghost var q := if i + 1 < |before| && before[i + 1].free then i + 2 else i + 1;
      ghost var merged := before[i];
      Sequences.SplitAt(before, i);
      if k != 0 && nodes[k - 1].free {
        merged := nodes[k - 1].(size := nodes[k - 1].size + nodes[k].size);
        nodes := nodes[..k - 1] + [nodes[k - 1].(size := nodes[k - 1].size + nodes[k].size)] + nodes[k + 1..];
        k := k - 1;
      }
      assert k == p && nodes == before[..p] + [merged] + before[i + 1..];
      SpliceNext(before, p, merged, i);
      if k + 1 < |nodes| && nodes[k + 1].free {
        merged := nodes[k].(size := nodes[k].size + nodes[k + 1].size);
        nodes := nodes[..k] + [nodes[k].(size := nodes[k].size + nodes[k + 1].size)] + nodes[k + 2..];
      }
      assert nodes == before[..p] + [merged] + before[q..];
      SpliceSet(before, p, merged, q);
      nodes := nodes[k := nodes[k].(free := true)];
    }

    /**
     Allocating a block and freeing it again restores the list, even though splitting and merging took different paths.
     */
    method AllocThenFree(size: nat, alignment: nat, metadata: int, lockToThread: ThreadId) returns (res: Option<nat>)
      requires Valid() && size > 0 && alignment > 0
      requires lockedToThread == lockToThread || lockedToThread == NO_THREAD
      modifies this`nodes, this`used, this`lockedToThread
      ensures Valid() && Shape(nodes) == old(Shape(nodes)) && used == old(used)
      ensures res.None? <==> forall o :: !Candidate(old(nodes), capacity, size, alignment, o)
      ensures lockedToThread == if res.Some? && used > 0 then lockToThread else old(lockedToThread)
    {
      hide Candidate, LiveSize, Tiles, Shape;
      ghost var before := nodes;
      res := AllocNode(size, alignment, metadata, lockToThread);
      if res.Some? {
        var block := Node(res.value, size, false, metadata);
        CandidateNotLive(before, capacity, size, alignment, res.value, metadata);
        ghost var between := nodes;
        assert block in Live(nodes);
        var i :| 0 <= i < |nodes| && nodes[i] == block;
        FreeNode(i);
        AllocFreeRestores(before, between, nodes, capacity, block);
      }
    }

    /** Page::map: mapping the buffer is an outcome. */
    method Map(mapOk: bool) returns (ok: bool)
      requires !mapped
      modifies this`mapped
      ensures ok == mapped == mapOk
    {
      mapped := mapOk;
      return mapOk;
    }

    /** Page::unmap. */
    method Unmap(unmapOk: bool) returns (ok: bool)
      requires mapped
      modifies this`mapped
      ensures ok == unmapOk && mapped == !unmapOk
    {
      if !unmapOk {
        return false;
      }
      mapped := false;
      return true;
    }

    /** What the debug check asserts. */
    ghost predicate Consistent()
      reads this
    {
      && (forall i :: 0 <= i < |nodes| ==> nodes[i].offset == SizeOf(nodes[..i]))
      && (forall i :: 0 < i < |nodes| && nodes[i].offset != 0 ==> !(nodes[i - 1].free && nodes[i].free))
      && LiveSize(nodes) == used && SizeOf(nodes) == capacity
    }

    /** The debug check holds exactly if every one of its assertions does. */
    method CheckConsistency() returns (ok: bool)
      ensures ok <==> Consistent()
    {
      hide LiveSize, SizeOf;
      LiveOne(Node(0, 0, true, 0));
      SizeOfNone();
      ok := true;
      var totalUsed, offset, prevFree := 0, 0, false;
      for i := 0 to |nodes|
        invariant totalUsed == LiveSize(nodes[..i]) && offset == SizeOf(nodes[..i])
        invariant prevFree == (i > 0 && nodes[i - 1].free)
        invariant ok <==> && (forall j :: 0 <= j < i ==> nodes[j].offset == SizeOf(nodes[..j]))
                          && (forall j :: 0 < j < i && nodes[j].offset != 0 ==> !(nodes[j - 1].free && nodes[j].free))
      {
        var node := nodes[i];
        SizesSnoc(nodes, i);
        var ok' := node.offset == offset;
        if !node.free {
          totalUsed := totalUsed + node.size;
        }
        if offset != 0 && node.free && prevFree {
          ok' := false;
        }
        ok := ok && ok';
        offset := offset + node.size;
        prevFree := node.free;
      }
      assert nodes[..|nodes|] == nodes;
      ok := ok && totalUsed == used && offset == capacity;
    }

    /** A valid page passes the debug check. */
    lemma ValidIsConsistent()
      requires Valid()
      ensures Consistent()
    {
      hide LiveSize, SizeOf;
      TilesSizes(nodes, capacity);
    }
  }

  /** The node list after freeing the node at i: it and its free neighbours become one free node. */
  function Freed(nodes: seq<Node>, i: nat): seq<Node>
    requires i < |nodes|
  {
    var p := if i > 0 && nodes[i - 1].free then i - 1 else i;
    var q := if i + 1 < |nodes| && nodes[i + 1].free then i + 2 else i + 1;
    nodes[..p] + [Node(nodes[p].offset, SizeOf(nodes[p..q]), true, nodes[p].metadata)] + nodes[q..]
  }

  function SizeOf(nodes: seq<Node>): nat {
    if nodes == [] then 0 else SizeOf(nodes[..|nodes| - 1]) + nodes[|nodes| - 1].size
  }

  lemma SizeOfSnoc(nodes: seq<Node>, n: Node)
    ensures SizeOf(nodes + [n]) == SizeOf(nodes) + n.size
  {
    assert (nodes + [n])[..|nodes|] == nodes;
  }

  lemma SizeOfNone()
    ensures SizeOf([]) == 0
  {
  }

  lemma SizesSnoc(nodes: seq<Node>, i: nat)
    requires i < |nodes|
    ensures LiveSize(nodes[..i + 1]) == LiveSize(nodes[..i]) + Used(nodes[i])
    ensures SizeOf(nodes[..i + 1]) == SizeOf(nodes[..i]) + nodes[i].size
  {
    assert nodes[..i + 1][..i] == nodes[..i];
  }

  /** What follows the node in the middle of a splice. */
  lemma SpliceNext(before: seq<Node>, p: nat, n: Node, i: nat)
    requires p <= i < |before|
    ensures var nodes := before[..p] + [n] + before[i + 1..];
      && |nodes| == p + |before| - i && nodes[p] == n && nodes[..p] == before[..p]
      && (i + 1 < |before| ==> nodes[p + 1] == before[i + 1] && nodes[p + 2..] == before[i + 2..])
  {
  }

  lemma SpliceSet(before: seq<Node>, p: nat, n: Node, q: nat)
    requires p <= q <= |before| && p < |before|
    ensures var nodes := before[..p] + [n] + before[q..];
      nodes[p] == n && forall m :: nodes[p := m] == before[..p] + [m] + before[q..]
  {
  }

  lemma MergedSize(nodes: seq<Node>, i: nat)
    requires i < |nodes|
    ensures SizeOf([nodes[i]]) == nodes[i].size
    ensures i > 0 ==> SizeOf(nodes[i - 1..i + 1]) == nodes[i - 1].size + nodes[i].size
    ensures i + 1 < |nodes| ==> SizeOf(nodes[i..i + 2]) == nodes[i].size + nodes[i + 1].size
    ensures 0 < i < |nodes| - 1 ==> SizeOf(nodes[i - 1..i + 2]) == nodes[i - 1].size + nodes[i].size + nodes[i + 1].size
    ensures nodes[i..i + 1] == [nodes[i]]
  {
    SizeOfSnoc([], nodes[i]);
    assert [] + [nodes[i]] == [nodes[i]];
    if i > 0 {
      SizeOfSnoc([], nodes[i - 1]);
      assert [] + [nodes[i - 1]] == [nodes[i - 1]];
      SizeOfSnoc([nodes[i - 1]], nodes[i]);
      assert nodes[i - 1..i + 1] == [nodes[i - 1]] + [nodes[i]];
    }
    if i + 1 < |nodes| {
      SizeOfSnoc([nodes[i]], nodes[i + 1]);
      assert nodes[i..i + 2] == [nodes[i]] + [nodes[i + 1]];
      if i > 0 {
        SizeOfSnoc(nodes[i - 1..i + 1], nodes[i + 1]);
        assert nodes[i - 1..i + 2] == nodes[i - 1..i + 1] + [nodes[i + 1]];
      }
    }
  }

  lemma {:induction false} ChainSizeOf(nodes: seq<Node>)
    requires Chain(nodes) && nodes != []
    ensures nodes[0].offset + SizeOf(nodes) == nodes[|nodes| - 1].End()
  {
    var init := nodes[..|nodes| - 1];
    if init == [] {
    } else {
      ChainSplit(init, [nodes[|nodes| - 1]]);
      assert nodes == init + [nodes[|nodes| - 1]];
      ChainSizeOf(init);
      assert Follows(nodes[|nodes| - 2], nodes[|nodes| - 1]);
    }
  }

  lemma TilesSizes(nodes: seq<Node>, capacity: nat)
    requires Tiles(nodes, 0, capacity)
    ensures SizeOf(nodes) == capacity
    ensures forall i :: 0 <= i < |nodes| ==> nodes[i].offset == SizeOf(nodes[..i])
    ensures forall i :: 0 < i < |nodes| ==> !(nodes[i - 1].free && nodes[i].free)
  {
    ChainSizeOf(nodes);
    forall i | 0 <= i < |nodes| ensures nodes[i].offset == SizeOf(nodes[..i]) {
      if i > 0 {
        assert nodes == nodes[..i] + nodes[i..];
        ChainSplit(nodes[..i], nodes[i..]);
        ChainSizeOf(nodes[..i]);
      }
    }
    forall i | 0 < i < |nodes| ensures !(nodes[i - 1].free && nodes[i].free) {
      assert Follows(nodes[i - 1], nodes[i]);
    }
  }

  lemma FreedJoins(nodes: seq<Node>, i: nat, p: nat, q: nat, m: Node)
    requires Chain(nodes) && p <= i < q <= |nodes| && !nodes[i].free
    requires p == if i > 0 && nodes[i - 1].free then i - 1 else i
    requires q == if i + 1 < |nodes| && nodes[i + 1].free then i + 2 else i + 1
    requires m.free && m.offset == nodes[p].offset && m.End() == nodes[q - 1].End()
    ensures Joins(nodes[..p], [m]) && Joins([m], nodes[q..])
  {
    if 0 < p {
      assert Follows(nodes[p - 1], nodes[p]);
    }
    if q < |nodes| {
      assert Follows(nodes[q - 1], nodes[q]);
    }
  }

  lemma SliceSpan(nodes: seq<Node>, p: nat, q: nat)
    requires Chain(nodes) && p < q <= |nodes|
    ensures SizeOf(nodes[p..q]) > 0 && nodes[p].offset + SizeOf(nodes[p..q]) == nodes[q - 1].End()
  {
    var slice := nodes[p..q];
    forall i | 0 < i < |slice| ensures Follows(slice[i - 1], slice[i]) {
      assert Follows(nodes[p + i - 1], nodes[p + i]);
    }
    ChainSizeOf(slice);
    SizePositive(slice);
  }

  lemma SizePositive(nodes: seq<Node>)
    requires nodes != [] && forall n :: n in nodes ==> n.size > 0
    ensures SizeOf(nodes) > 0
  {
  }

  lemma FreedTiles(nodes: seq<Node>, i: nat, capacity: nat)
    requires Tiles(nodes, 0, capacity) && i < |nodes| && !nodes[i].free
    ensures Tiles(Freed(nodes, i), 0, capacity)
  {
    var p := if i > 0 && nodes[i - 1].free then i - 1 else i;
    var q := if i + 1 < |nodes| && nodes[i + 1].free then i + 2 else i + 1;
    var m := Node(nodes[p].offset, SizeOf(nodes[p..q]), true, nodes[p].metadata);
    SliceSpan(nodes, p, q);
    FreedJoins(nodes, i, p, q, m);
    assert Tiles([m], nodes[p].offset, nodes[q - 1].End());
    Sequences.SplitThree(nodes, p, q);
    hide Tiles, Joins, SizeOf;
    TilesSplice(nodes[..p], nodes[p..q], nodes[q..], [m], 0, capacity);
  }

  lemma FreedSize(nodes: seq<Node>, i: nat)
    requires Chain(nodes) && i < |nodes| && !nodes[i].free
    ensures Live(Freed(nodes, i)) == Live(nodes) - {nodes[i]}
    ensures LiveSize(Freed(nodes, i)) == LiveSize(nodes) - nodes[i].size
  {
    hide Live, LiveSize, Chain, SizeOf;
    var p := if i > 0 && nodes[i - 1].free then i - 1 else i;
    var q := if i + 1 < |nodes| && nodes[i + 1].free then i + 2 else i + 1;
    var merged := Node(nodes[p].offset, SizeOf(nodes[p..q]), true, nodes[p].metadata);
    Sequences.SplitThree(nodes, p, q);
    LiveThree(nodes[..p], nodes[p..q], nodes[q..]);
    LiveThree(nodes[..p], [merged], nodes[q..]);
    LiveOne(merged);
    MergedLive(nodes, i, p, q);
    LiveOnce(nodes, i, p, q);
  }

  lemma LiveOnce(nodes: seq<Node>, i: nat, p: nat, q: nat)
    requires Chain(nodes) && p <= i < q <= |nodes|
    ensures nodes[i] !in Live(nodes[..p]) && nodes[i] !in Live(nodes[q..])
  {
    forall j | 0 <= j < |nodes| && nodes[j] == nodes[i] ensures j == i {
      SameOffset(nodes, i, j);
    }
  }

  lemma MergedLive(nodes: seq<Node>, i: nat, p: nat, q: nat)
    requires p <= i < q <= |nodes| && p + 1 >= i && q <= i + 2 && !nodes[i].free
    requires p < i ==> nodes[p].free
    requires q > i + 1 ==> nodes[i + 1].free
    ensures Live(nodes[p..q]) == {nodes[i]} && LiveSize(nodes[p..q]) == nodes[i].size
  {
    hide Live, LiveSize;
    assert nodes[p..q] == nodes[p..i] + [nodes[i]] + nodes[i + 1..q];
    LiveThree(nodes[p..i], [nodes[i]], nodes[i + 1..q]);
    LiveOne(nodes[i]);
    LiveOne(nodes[p]);
    LiveOne(nodes[q - 1]);
    assert nodes[p..i] == [] || nodes[p..i] == [nodes[p]];
    assert nodes[i + 1..q] == [] || nodes[i + 1..q] == [nodes[q - 1]];
  }

  // ---------- Consequences for any history ----------

  /** A block placed in a free range was not live before. */
  lemma CandidateNotLive(nodes: seq<Node>, capacity: nat, size: nat, alignment: nat, offset: nat, metadata: int)
    requires alignment > 0 && size > 0 && Candidate(nodes, capacity, size, alignment, offset)
    ensures Node(offset, size, false, metadata) !in Live(nodes)
  {
  }

  /** Partitions with the same live ranges, one of them after a block came and went, are the same list. */
  lemma AllocFreeRestores(before: seq<Node>, between: seq<Node>, after: seq<Node>, capacity: nat, block: Node)
    requires Tiles(before, 0, capacity) && Tiles(after, 0, capacity)
    requires block !in Live(before) && Live(between) == Live(before) + {block}
    requires Live(after) == Live(between) - {block}
    ensures Shape(after) == Shape(before)
  {
    Canonical(after, before, 0, capacity);
  }
}
