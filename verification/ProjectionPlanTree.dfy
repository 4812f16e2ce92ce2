/** The compiled vector of nodes is a tree that holds exactly the slot-to-path map. */
module ProjectionPlanTree {
  import opened Json
  import opened ProjectionSpec
  import opened ProjectionTrie
  import opened ProjectionPlan

  // ---- Following paths through the vector

  ghost function FlatStep(node: Node, g: Segment): (r: Option<nat>)
  {
    match g
    case Key(key) =>
      if HasKey(node, key) then Some(node.objectEdges[KeyPosition(node.objectEdges, key)].child) else None
    case Index(index) =>
      if HasIndex(node, index) then Some(node.arrayEdges[IndexPosition(node.arrayEdges, index)].child) else None
  }

  ghost function Reach(nodes: seq<Node>, n: nat, path: Path): (r: Option<nat>)
    requires Ordered(nodes) && n < |nodes|
    ensures r.Some? ==> n <= r.value < |nodes|
    decreases |path|
  {
    if path == [] then Some(n)
    else
      var c := FlatStep(nodes[n], path[0]);
      if c.None? then None else Reach(nodes, c.value, path[1..])
  }

  lemma {:induction false} ReachSnoc(nodes: seq<Node>, n: nat, path: Path, g: Segment)
    requires Ordered(nodes) && n < |nodes|
    ensures Reach(nodes, n, path + [g]) ==
            if Reach(nodes, n, path).None? then None
            else FlatStep(nodes[Reach(nodes, n, path).value], g)
    decreases |path|
  {
    if path == [] {
      assert path + [g] == [g];
      assert [g][1..] == [];
    } else {
      assert (path + [g])[1..] == path[1..] + [g];
      var c := FlatStep(nodes[n], path[0]);
      if c.Some? {
        ReachSnoc(nodes, c.value, path[1..], g);
      }
    }
  }

  // ---- The invariant of the vector

  ghost predicate SortedNode(node: Node) {
    && (forall i, j :: 0 <= i < j < |node.objectEdges| ==> Less(node.objectEdges[i].key, node.objectEdges[j].key))
    && (forall i, j :: 0 <= i < j < |node.arrayEdges| ==> node.arrayEdges[i].index < node.arrayEdges[j].index)
    && (forall i, j :: 0 <= i < j < |node.terminals| ==> node.terminals[i] < node.terminals[j])
  }

  ghost predicate HasFlag(nodes: seq<Node>, n: nat, i: nat, id: nat) {
    && n < |nodes| && i < |nodes[n].objectEdges|
    && nodes[n].objectEdges[i].executionId == id
  }

  ghost predicate OnePathEach(nodes: seq<Node>)
    requires Ordered(nodes) && 0 < |nodes|
  {
    forall x, y :: Reach(nodes, 0, x).Some? && Reach(nodes, 0, x) == Reach(nodes, 0, y) ==> x == y
  }

  ghost predicate Reached(nodes: seq<Node>, n: nat)
    requires Ordered(nodes) && 0 < |nodes|
  {
    exists x :: Reach(nodes, 0, x) == Some(n)
  }

  ghost predicate OneEdgePerFlag(p: PlanState) {
    && (forall n: nat, i: nat, id: nat :: HasFlag(p.nodes, n, i, id) ==> id < p.objectEdges)
    && (forall n: nat, i: nat, m: nat, j: nat, id ::
          HasFlag(p.nodes, n, i, id) && HasFlag(p.nodes, m, j, id) ==> n == m && i == j)
  }

  /** A vector of nodes is a tree: one path to each node, one edge for each flag. */
  ghost predicate Tree(p: PlanState) {
    && 0 < |p.nodes| && Ordered(p.nodes)
    && (forall n :: 0 <= n < |p.nodes| ==> SortedNode(p.nodes[n]))
    && OnePathEach(p.nodes)
    && (forall n: nat :: n < |p.nodes| ==> Reached(p.nodes, n))
    && OneEdgePerFlag(p)
  }

  // ---- Adding one edge to a fresh leaf

  ghost predicate AddsEdge(before: seq<Node>, after: seq<Node>, n: nat, g: Segment) {
    && n < |before| && |after| == |before| + 1
    && after[|before|] == EMPTY_NODE
    && FlatStep(before[n], g).None?
    && (forall m, h :: 0 <= m < |before| ==>
          FlatStep(after[m], h) == if m == n && h == g then Some(|before|) else FlatStep(before[m], h))
  }

  lemma {:induction false} ReachAfter(before: seq<Node>, after: seq<Node>, n: nat, g: Segment, m: nat, x: Path)
    requires Ordered(before) && Ordered(after) && AddsEdge(before, after, n, g) && m < |before|
    ensures Reach(before, m, x).Some? ==> Reach(after, m, x) == Reach(before, m, x)
    ensures Reach(before, m, x).None? && Reach(after, m, x).Some? ==>
              && Reach(after, m, x) == Some(|before|) && |x| > 0
              && x[|x| - 1] == g && Reach(before, m, x[..|x| - 1]) == Some(n)
    decreases |x|
  {
    if x != [] {
      var c := FlatStep(after[m], x[0]);
      if c.Some? && c.value < |before| {
        assert FlatStep(before[m], x[0]) == c;
        ReachAfter(before, after, n, g, c.value, x[1..]);
        if |x| > 1 {
          assert x[..|x| - 1][1..] == x[1..][..|x| - 2];
        }
      } else if c == Some(|before|) {
        LeafReachesItself(after, |before|, x[1..]);
        assert m == n && x[0] == g;
        if x[1..] == [] {
          assert x == [g] && x[..0] == [];
        }
      }
    }
  }

  lemma LeafReachesItself(nodes: seq<Node>, n: nat, x: Path)
    requires Ordered(nodes) && n < |nodes| && nodes[n] == EMPTY_NODE
    ensures Reach(nodes, n, x) == if x == [] then Some(n) else None
  {
    if x != [] {
      assert FlatStep(nodes[n], x[0]).None?;
    }
  }

  // ---- Sorted insertion

  lemma KeyFound(edges: seq<FlatObjectEdge>, i: nat)
    requires forall a, b :: 0 <= a < b < |edges| ==> Less(edges[a].key, edges[b].key)
    requires i < |edges|
    ensures KeyPosition(edges, edges[i].key) == i
  {
    LessIrreflexive(edges[i].key);
  }

  lemma IndexFound(edges: seq<FlatArrayEdge>, i: nat)
    requires forall a, b :: 0 <= a < b < |edges| ==> edges[a].index < edges[b].index
    requires i < |edges|
    ensures IndexPosition(edges, edges[i].index) == i
  {
  }

  lemma InsertKeySorted(edges: seq<FlatObjectEdge>, edge: FlatObjectEdge)
    requires forall a, b :: 0 <= a < b < |edges| ==> Less(edges[a].key, edges[b].key)
    requires
      var i := KeyPosition(edges, edge.key);
      !(i < |edges| && edges[i].key == edge.key)
    ensures
      var after := InsertAt(edges, KeyPosition(edges, edge.key), edge);
      forall a, b :: 0 <= a < b < |after| ==> Less(after[a].key, after[b].key)
  {
    var i := KeyPosition(edges, edge.key);
    var after := InsertAt(edges, i, edge);
    forall b | i <= b < |edges| ensures Less(edge.key, edges[b].key) {
      LessIsStrictOrder(edges[i].key, edge.key, edge.key);
      LessIsStrictOrder(edge.key, edges[i].key, edges[b].key);
    }
    forall a, b | 0 <= a < b < |after| ensures Less(after[a].key, after[b].key) {
      if a < i < b {
        assert after[a] == edges[a] && after[b] == edges[b - 1];
      }
    }
  }

  lemma KeptByInsert(edges: seq<FlatObjectEdge>, i: nat, edge: FlatObjectEdge, j: nat)
    requires i <= |edges| && j < |edges|
    requires forall a, b :: 0 <= a < b <= |edges| ==>
               Less(InsertAt(edges, i, edge)[a].key, InsertAt(edges, i, edge)[b].key)
    ensures
      var after := InsertAt(edges, i, edge);
      var k := KeyPosition(after, edges[j].key);
      k < |after| && after[k] == edges[j]
  {
    var after := InsertAt(edges, i, edge);
    var k := if j < i then j else j + 1;
    assert after[k] == edges[j];
    KeyFound(after, k);
  }

  lemma WasBeforeInsert(edges: seq<FlatObjectEdge>, i: nat, edge: FlatObjectEdge, k: nat)
    requires i <= |edges| && k <= |edges| && k != i
    requires forall a, b :: 0 <= a < b < |edges| ==> Less(edges[a].key, edges[b].key)
    ensures
      var found := InsertAt(edges, i, edge)[k];
      var j := KeyPosition(edges, found.key);
      j < |edges| && edges[j] == found
  {
    hide Less, KeyPosition;
    var j := if k < i then k else k - 1;
    assert InsertAt(edges, i, edge)[k] == edges[j];
    KeyFound(edges, j);
  }

  lemma StepAfterInsertKey(node: Node, key: Bytes, child: nat, id: nat, h: Segment)
    requires SortedNode(node) && !HasKey(node, key)
    ensures
      var i := KeyPosition(node.objectEdges, key);
      var after := node.(objectEdges := InsertAt(node.objectEdges, i, FlatObjectEdge(key, child, id)));
      && SortedNode(after)
      && FlatStep(after, h) == if h == Key(key) then Some(child) else FlatStep(node, h)
  {
    var edges := node.objectEdges;
    var i := KeyPosition(edges, key);
    var edge := FlatObjectEdge(key, child, id);
    var after := node.(objectEdges := InsertAt(edges, i, edge));
    InsertKeySorted(edges, edge);
    assert after.objectEdges[i] == edge;
    KeyFound(after.objectEdges, i);
    hide Less, KeyPosition, InsertAt;
    if h.Key? && h.key != key {
      if HasKey(node, h.key) {
        KeptByInsert(edges, i, edge, KeyPosition(edges, h.key));
      }
      if HasKey(after, h.key) {
        WasBeforeInsert(edges, i, edge, KeyPosition(after.objectEdges, h.key));
      }
    }
  }

  lemma InsertIndexSorted(edges: seq<FlatArrayEdge>, edge: FlatArrayEdge)
    requires forall a, b :: 0 <= a < b < |edges| ==> edges[a].index < edges[b].index
    requires
      var i := IndexPosition(edges, edge.index);
      !(i < |edges| && edges[i].index == edge.index)
    ensures
      var after := InsertAt(edges, IndexPosition(edges, edge.index), edge);
      forall a, b :: 0 <= a < b < |after| ==> after[a].index < after[b].index
  {
  }

  lemma StepAfterInsertIndex(node: Node, index: nat, child: nat, h: Segment)
    requires SortedNode(node) && !HasIndex(node, index)
    ensures
      var i := IndexPosition(node.arrayEdges, index);
      var after := node.(arrayEdges := InsertAt(node.arrayEdges, i, FlatArrayEdge(index, child)));
      && SortedNode(after)
      && FlatStep(after, h) == if h == Index(index) then Some(child) else FlatStep(node, h)
  {
    hide Less;
    var edge := FlatArrayEdge(index, child);
    InsertIndexSorted(node.arrayEdges, edge);
    if h.Index? {
      IndexAfterInsert(node.arrayEdges, edge, h.index);
    }
  }

  lemma IndexAfterInsert(edges: seq<FlatArrayEdge>, edge: FlatArrayEdge, index: nat)
    requires forall a, b :: 0 <= a < b < |edges| ==> edges[a].index < edges[b].index
    requires
      var i := IndexPosition(edges, edge.index);
      !(i < |edges| && edges[i].index == edge.index)
    ensures
      var after := InsertAt(edges, IndexPosition(edges, edge.index), edge);
      var j, k := IndexPosition(edges, index), IndexPosition(after, index);
      if index == edge.index then k < |after| && after[k] == edge
      else (j < |edges| && edges[j].index == index <==> k < |after| && after[k].index == index)
           && (j < |edges| && edges[j].index == index ==> after[k] == edges[j])
  {
    hide IndexPosition;
    var i, j := IndexPosition(edges, edge.index), IndexPosition(edges, index);
    var after := InsertAt(edges, i, edge);
    if index <= edge.index {
      assert j <= i;
      assert forall k :: 0 <= k < i ==> after[k] == edges[k];
      IndexPositionIs(after, index, j);
    } else {
      assert i <= j;
      assert forall k :: i < k < |after| ==> after[k] == edges[k - 1];
      IndexPositionIs(after, index, j + 1);
    }
  }

  lemma IndexPositionIs(edges: seq<FlatArrayEdge>, index: nat, i: nat)
    requires i <= |edges|
    requires forall k :: 0 <= k < i ==> edges[k].index < index
    requires i < |edges| ==> edges[i].index >= index
    ensures IndexPosition(edges, index) == i
  {
  }

  // ---- What one segment does to the tree

  lemma ChildAddsEdge(p: PlanState, n: nat, g: Segment)
    requires n < |p.nodes| && Ordered(p.nodes)
    requires forall m :: 0 <= m < |p.nodes| ==> SortedNode(p.nodes[m])
    requires FlatStep(p.nodes[n], g).None?
    ensures
      var (q, c) := ChildFor(p, n, g);
      && AddsEdge(p.nodes, q.nodes, n, g) && c == |p.nodes|
      && (forall m :: 0 <= m < |q.nodes| ==> SortedNode(q.nodes[m]))
      && (forall m :: 0 <= m < |p.nodes| ==> q.nodes[m].terminals == p.nodes[m].terminals)
  {
    var (q, c) := ChildFor(p, n, g);
    var node := p.nodes[n];
    forall h ensures SortedNode(q.nodes[n])
                     && FlatStep(q.nodes[n], h) == if h == g then Some(|p.nodes|) else FlatStep(node, h) {
      match g {
        case Key(key) => StepAfterInsertKey(node, key, |p.nodes|, p.objectEdges, h);
        case Index(index) => StepAfterInsertIndex(node, index, |p.nodes|, h);
      }
    }
  }

  lemma FlagsAfterChild(p: PlanState, n: nat, g: Segment)
    requires OneEdgePerFlag(p) && n < |p.nodes| && FlatStep(p.nodes[n], g).None?
    ensures OneEdgePerFlag(ChildFor(p, n, g).0)
  {
    var q := ChildFor(p, n, g).0;
    if g.Key? {
      var k := KeyPosition(p.nodes[n].objectEdges, g.key);
      forall m: nat, i: nat, id: nat | HasFlag(q.nodes, m, i, id)
        ensures if m == n && i == k then id == p.objectEdges
                else HasFlag(p.nodes, m, if m == n && i > k then i - 1 else i, id)
      {
      }
    } else {
      forall m: nat, i: nat, id: nat | HasFlag(q.nodes, m, i, id) ensures HasFlag(p.nodes, m, i, id) {
      }
    }
  }

  /** Following one segment keeps the tree and adds at most the one path it needs. */
  lemma ChildForKeepsTree(p: PlanState, base: Path, n: nat, g: Segment)
    requires Tree(p) && Reach(p.nodes, 0, base) == Some(n)
    ensures
      var (q, c) := ChildFor(p, n, g);
      && Tree(q) && Reach(q.nodes, 0, base + [g]) == Some(c)
      && (forall x :: Reach(p.nodes, 0, x).Some? ==> Reach(q.nodes, 0, x) == Reach(p.nodes, 0, x))
      && (forall x :: Reach(q.nodes, 0, x).Some? ==> Reach(p.nodes, 0, x).Some? || x == base + [g])
      && (forall m :: 0 <= m < |p.nodes| ==> q.nodes[m].terminals == p.nodes[m].terminals)
      && (forall m :: |p.nodes| <= m < |q.nodes| ==> q.nodes[m].terminals == [])
  {
    hide SortedNode, OneEdgePerFlag, OnePathEach, Reached, AddsEdge;
    var (q, c) := ChildFor(p, n, g);
    ChildForOrdered(p, n, g);
    if FlatStep(p.nodes[n], g).Some? {
      ReachSnoc(p.nodes, 0, base, g);
    } else {
      ChildAddsEdge(p, n, g);
      FlagsAfterChild(p, n, g);
      AddedLeaf(p.nodes, q.nodes, n, g);
      NewEdgeKeepsTree(p, q, base, n, g);
    }
  }

  lemma AddedLeaf(before: seq<Node>, after: seq<Node>, n: nat, g: Segment)
    requires AddsEdge(before, after, n, g)
    ensures |after| == |before| + 1 && after[|before|].terminals == []
  {
  }

  lemma NewEdgeKeepsTree(p: PlanState, q: PlanState, base: Path, n: nat, g: Segment)
    requires Tree(p) && Reach(p.nodes, 0, base) == Some(n)
    requires Ordered(q.nodes) && AddsEdge(p.nodes, q.nodes, n, g)
    ensures Reach(q.nodes, 0, base + [g]) == Some(|p.nodes|)
    ensures forall x :: Reach(p.nodes, 0, x).Some? ==> Reach(q.nodes, 0, x) == Reach(p.nodes, 0, x)
    ensures forall x :: Reach(q.nodes, 0, x).Some? ==> Reach(p.nodes, 0, x).Some? || x == base + [g]
    ensures OnePathEach(q.nodes)
    ensures forall m: nat :: m < |q.nodes| ==> Reached(q.nodes, m)
  {
    hide SortedNode, OneEdgePerFlag, FlatStep;
    ReachSnoc(q.nodes, 0, base, g);
    forall x
      ensures Reach(p.nodes, 0, x).Some? ==> Reach(q.nodes, 0, x) == Reach(p.nodes, 0, x)
      ensures Reach(q.nodes, 0, x).Some? ==>
                Reach(p.nodes, 0, x).Some? || (x == base + [g] && Reach(q.nodes, 0, x) == Some(|p.nodes|))
    {
      NewEdgePath(p, q, base, n, g, x);
    }
    NewEdgePath(p, q, base, n, g, base);
    assert Reach(q.nodes, 0, base + [g]) == Some(|p.nodes|);
    forall m: nat | m < |q.nodes| ensures Reached(q.nodes, m) {
      if m < |p.nodes| {
        assert Reached(p.nodes, m);
        var x :| Reach(p.nodes, 0, x) == Some(m);
        assert Reach(q.nodes, 0, x) == Some(m);
      }
    }
  }

  lemma NewEdgePath(p: PlanState, q: PlanState, base: Path, n: nat, g: Segment, x: Path)
    requires 0 < |p.nodes| && Ordered(p.nodes) && OnePathEach(p.nodes)
    requires Reach(p.nodes, 0, base) == Some(n)
    requires Ordered(q.nodes) && AddsEdge(p.nodes, q.nodes, n, g)
    ensures Reach(p.nodes, 0, x).Some? ==> Reach(q.nodes, 0, x) == Reach(p.nodes, 0, x)
    ensures Reach(q.nodes, 0, x).Some? ==>
              Reach(p.nodes, 0, x).Some? || (x == base + [g] && Reach(q.nodes, 0, x) == Some(|p.nodes|))
  {
    ReachAfter(p.nodes, q.nodes, n, g, 0, x);
    hide Reach, AddsEdge, Ordered;
    if Reach(p.nodes, 0, x).None? && Reach(q.nodes, 0, x).Some? {
      assert x == x[..|x| - 1] + [g];
    }
  }
}
