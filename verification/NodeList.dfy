/**
 Node lists of a staging page as values: when a list is a well-formed partition of the page, what it says is
 live, and the canonical-form theorem: a well-formed list is determined by its live ranges.
 */
module NodeList {
  /** StagingHeap::Node. */
  datatype Node = Node(offset: nat, size: nat, free: bool, metadata: int) {
    function End(): nat {
      offset + size
    }
  }

  /** b may follow a: it starts where a ends, and they are not both free. */
  predicate Follows(a: Node, b: Node) {
    b.offset == a.End() && !(a.free && b.free)
  }

  predicate Chain(nodes: seq<Node>) {
    && (forall n :: n in nodes ==> n.size > 0)
    && forall i :: 0 < i < |nodes| ==> Follows(nodes[i - 1], nodes[i])
  }

  /** The nodes partition [from, to), in order, without empty nodes or two free neighbours. */
  predicate Tiles(nodes: seq<Node>, from: nat, to: nat) {
    Chain(nodes) && nodes != [] && nodes[0].offset == from && nodes[|nodes| - 1].End() == to
  }

  /** The live ranges with their metadata. */
  function Live(nodes: seq<Node>): set<Node> {
    set n | n in nodes && !n.free
  }

  function LiveSize(nodes: seq<Node>): nat {
    if nodes == [] then 0 else LiveSize(nodes[..|nodes| - 1]) + Used(nodes[|nodes| - 1])
  }

  function Used(n: Node): nat {
    if n.free then 0 else n.size
  }

  // ---------- Concatenation ----------

  predicate Joins(a: seq<Node>, b: seq<Node>) {
    a != [] && b != [] ==> Follows(a[|a| - 1], b[0])
  }

  lemma ChainConcat(a: seq<Node>, b: seq<Node>)
    requires Chain(a) && Chain(b) && Joins(a, b)
    ensures Chain(a + b)
  {
    var c := a + b;
    forall i | 0 < i < |c| ensures Follows(c[i - 1], c[i]) {
      if i < |a| {
        assert Follows(a[i - 1], a[i]);
      } else if i > |a| {
        assert Follows(b[i - |a| - 1], b[i - |a|]);
      }
    }
  }

  lemma ChainSplit(a: seq<Node>, b: seq<Node>)
    requires Chain(a + b)
    ensures Chain(a) && Chain(b) && Joins(a, b)
  {
    var c := a + b;
    forall i | 0 < i < |a| ensures Follows(a[i - 1], a[i]) {
      assert Follows(c[i - 1], c[i]);
    }
    forall i | 0 < i < |b| ensures Follows(b[i - 1], b[i]) {
      assert Follows(c[|a| + i - 1], c[|a| + i]);
    }
    if a != [] && b != [] {
      assert Follows(c[|a| - 1], c[|a|]);
    }
  }

  lemma LiveConcat(a: seq<Node>, b: seq<Node>)
    ensures Live(a + b) == Live(a) + Live(b)
  {
  }

  lemma {:induction false} LiveSizeConcat(a: seq<Node>, b: seq<Node>)
    ensures LiveSize(a + b) == LiveSize(a) + LiveSize(b)
  {
    if b == [] {
      assert a + b == a;
    } else {
      LiveSizeConcat(a, b[..|b| - 1]);
      assert (a + b)[..|a + b| - 1] == a + b[..|b| - 1];
    }
  }

  /** Replacing some nodes by a chain that covers the same range and joins its neighbours keeps the tiling. */
  lemma TilesSplice(pre: seq<Node>, out: seq<Node>, post: seq<Node>, mid: seq<Node>, from: nat, to: nat)
    requires Tiles(pre + out + post, from, to) && out != []
    requires Tiles(mid, out[0].offset, out[|out| - 1].End())
    requires Joins(pre, mid) && Joins(mid, post)
    ensures Tiles(pre + mid + post, from, to)
  {
    var old', new' := pre + out + post, pre + mid + post;
    ChainSplit(pre + out, post);
    ChainSplit(pre, out);
    ChainConcat(pre, mid);
    ChainConcat(pre + mid, post);
    assert new'[0] == (if pre == [] then mid[0] else pre[0]) && old'[0] == (if pre == [] then out[0] else pre[0]);
    assert new'[|new'| - 1] == (if post == [] then mid[|mid| - 1] else post[|post| - 1]);
    assert old'[|old'| - 1] == (if post == [] then out[|out| - 1] else post[|post| - 1]);
  }

  // ---------- Order ----------

  lemma {:induction false} Ordered(nodes: seq<Node>, i: nat, j: nat)
    requires Chain(nodes) && i < j < |nodes|
    ensures nodes[i].End() <= nodes[j].offset
    decreases j
  {
    assert Follows(nodes[j - 1], nodes[j]);
    if i < j - 1 {
      Ordered(nodes, i, j - 1);
    }
  }

  /** Distinct positions hold disjoint ranges, so an offset names at most one node. */
  lemma SameOffset(nodes: seq<Node>, i: nat, j: nat)
    requires Chain(nodes) && i < |nodes| && j < |nodes| && nodes[i].offset == nodes[j].offset
    ensures i == j
  {
    if i < j {
      Ordered(nodes, i, j);
    } else if j < i {
      Ordered(nodes, j, i);
    }
  }

  lemma WithinBounds(nodes: seq<Node>, i: nat, from: nat, to: nat)
    requires Tiles(nodes, from, to) && i < |nodes|
    ensures from <= nodes[i].offset && nodes[i].End() <= to
  {
    if 0 < i {
      Ordered(nodes, 0, i);
    }
    if i < |nodes| - 1 {
      Ordered(nodes, i, |nodes| - 1);
    }
  }

  lemma {:induction false} LiveSizeZero(nodes: seq<Node>)
    requires forall n :: n in nodes ==> n.size > 0
    ensures LiveSize(nodes) == 0 <==> Live(nodes) == {}
  {
    if nodes != [] {
      var init, last := nodes[..|nodes| - 1], nodes[|nodes| - 1];
      LiveSizeZero(init);
      assert nodes == init + [last];
      LiveConcat(init, [last]);
      assert last in nodes;
      assert !last.free ==> last in Live(nodes);
    }
  }

  // ---------- Canonical form ----------

  /** What a node list says apart from the leftover metadata of free nodes. */
  function Shape(nodes: seq<Node>): (r: seq<Node>)
    ensures |r| == |nodes|
  {
    seq(|nodes|, i requires 0 <= i < |nodes| => if nodes[i].free then nodes[i].(metadata := 0) else nodes[i])
  }

  lemma TilesTail(nodes: seq<Node>, from: nat, to: nat)
    requires Tiles(nodes, from, to)
    ensures nodes[0].End() <= to
    ensures |nodes| == 1 <==> nodes[0].End() == to
    ensures |nodes| > 1 ==> Tiles(nodes[1..], nodes[0].End(), to) && Follows(nodes[0], nodes[1])
    ensures Live(nodes) == Live(nodes[..1]) + Live(nodes[1..])
    ensures forall n :: n in nodes[1..] ==> n.offset >= nodes[0].End() && n.size > 0
  {
    assert nodes == nodes[..1] + nodes[1..];
    ChainSplit(nodes[..1], nodes[1..]);
    LiveConcat(nodes[..1], nodes[1..]);
    forall n | n in nodes[1..] ensures n.offset >= nodes[0].End() {
      var k :| 0 <= k < |nodes[1..]| && nodes[1..][k] == n;
      Ordered(nodes, 0, k + 1);
    }
    if |nodes| > 1 {
      assert Follows(nodes[0], nodes[1]);
      WithinBounds(nodes, 1, from, to);
    }
  }

  /** Two partitions with the same live ranges agree on their first node. */
  lemma SameHead(a: seq<Node>, b: seq<Node>, from: nat, to: nat)
    requires Tiles(a, from, to) && Tiles(b, from, to) && Live(a) == Live(b)
    ensures a[0].free == b[0].free && a[0].size == b[0].size && (!a[0].free ==> a[0] == b[0])
  {
    if !a[0].free {
      HeadIsLive(a, b, from, to);
    } else if !b[0].free {
      HeadIsLive(b, a, from, to);
    } else {
      LeadingGap(a, b, from, to);
      LeadingGap(b, a, from, to);
    }
  }

  lemma HeadIsLive(a: seq<Node>, b: seq<Node>, from: nat, to: nat)
    requires Tiles(a, from, to) && Tiles(b, from, to) && Live(a) == Live(b) && !a[0].free
    ensures b[0] == a[0]
  {
    TilesTail(b, from, to);
    assert a[0] in Live(b);
    assert b == [b[0]] + b[1..];
  }

  /** A leading gap reaches at least as far as the other partition's: what ends it is live in both. */
  lemma LeadingGap(a: seq<Node>, b: seq<Node>, from: nat, to: nat)
    requires Tiles(a, from, to) && Tiles(b, from, to) && Live(a) == Live(b) && a[0].free && b[0].free
    ensures a[0].size >= b[0].size
  {
    TilesTail(a, from, to);
    TilesTail(b, from, to);
    if |a| > 1 {
      assert Follows(a[0], a[1]);
      assert a[1] in Live(b);
      assert b == [b[0]] + b[1..];
    }
  }

  /** Canonical form: the live ranges determine the node list, whatever sequence of operations led to it. */
  lemma {:induction false} Canonical(a: seq<Node>, b: seq<Node>, from: nat, to: nat)
    requires Tiles(a, from, to) && Tiles(b, from, to) && Live(a) == Live(b)
    ensures Shape(a) == Shape(b)
    decreases |a|
  {
    SameHead(a, b, from, to);
    TilesTail(a, from, to);
    TilesTail(b, from, to);
    if |a| == 1 {
      assert Shape(a) == Shape(b);
    } else {
      TailLive(a, from, to);
      TailLive(b, from, to);
      Canonical(a[1..], b[1..], a[0].End(), to);
      assert forall i :: 0 < i < |a| ==> Shape(a)[i] == Shape(a[1..])[i - 1];
      assert forall i :: 0 < i < |b| ==> Shape(b)[i] == Shape(b[1..])[i - 1];
      assert Shape(a) == Shape(b);
    }
  }

  lemma TailLive(a: seq<Node>, from: nat, to: nat)
    requires Tiles(a, from, to)
    ensures Live(a[1..]) == set n | n in Live(a) && n.offset >= a[0].End()
  {
    TilesTail(a, from, to);
    assert a == [a[0]] + a[1..];
    assert a[0].size > 0;
  }

  /** With nothing live the page is the single free node it started as. */
  lemma EmptyIsInitial(a: seq<Node>, to: nat)
    requires Tiles(a, 0, to) && Live(a) == {}
    ensures Shape(a) == [Node(0, to, true, 0)]
  {
    var b := [Node(0, to, true, 0)];
    assert a[0].size > 0;
    WithinBounds(a, 0, 0, to);
    assert Tiles(b, 0, to);
    Canonical(a, b, 0, to);
  }
}
