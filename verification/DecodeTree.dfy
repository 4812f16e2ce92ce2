/** Every published graph is a tree: one parent edge a node, one owner an edge, children after parents. */
module DecodeTree {
  import opened Arithmetic
  import opened Json
  import opened DecodeSpec
  import opened DecodeRead

  predicate Owns(node: Node, e: nat) {
    node.edgeOffset <= e < node.edgeOffset + node.edgeCount
  }

  function RangeEnd(node: Node): nat {
    node.edgeOffset + node.edgeCount
  }

  /** How many edges lead to node `k`. */
  ghost function Hits(edges: seq<Edge>, k: nat): nat {
    if edges == [] then 0 else Hits(edges[..|edges| - 1], k) + One(edges[|edges| - 1].valueNode == k)
  }

  /** How many containers hold edge `e` in their range. */
  ghost function Owners(nodes: seq<Node>, e: nat): nat {
    if nodes == [] then 0 else Owners(nodes[..|nodes| - 1], e) + One(Owns(nodes[|nodes| - 1], e))
  }

  // Edge `e` of node `n` leads to a later node whose own edges are laid out before those of `n`.
  ghost predicate Descends(g: Graph, n: nat, e: nat)
    requires n < |g.nodes| && e < |g.edges|
  {
    && n < g.edges[e].valueNode < |g.nodes|
    && RangeEnd(g.nodes[g.edges[e].valueNode]) <= g.nodes[n].edgeOffset
  }

  ghost predicate Ranged(g: Graph) {
    && (forall n :: 0 <= n < |g.nodes| ==> RangeEnd(g.nodes[n]) <= |g.edges|)
    && (forall n: nat, e: nat :: n < |g.nodes| && Owns(g.nodes[n], e) ==> Descends(g, n, e))
  }

  /** A preorder tree whose containers partition the edges, a child's block before its parent's. */
  ghost predicate IsTree(g: Graph) {
    && Ranged(g)
    && (forall k: nat :: Hits(g.edges, k) == One(0 < k < |g.nodes|))
    && (forall e: nat :: Owners(g.nodes, e) == One(e < |g.edges|))
  }

  // ---- Counting

  lemma {:induction false} HitsConcat(a: seq<Edge>, b: seq<Edge>, k: nat)
    ensures Hits(a + b, k) == Hits(a, k) + Hits(b, k)
  {
    if b == [] {
      assert a + b == a;
    } else {
      var less := b[..|b| - 1];
      assert (a + b)[..|a + b| - 1] == a + less;
      HitsConcat(a, less, k);
    }
  }

  lemma {:induction false} OwnersUpdate(nodes: seq<Node>, i: nat, node: Node, e: nat)
    requires i < |nodes|
    ensures Owners(nodes[i := node], e) + One(Owns(nodes[i], e)) == Owners(nodes, e) + One(Owns(node, e))
  {
    var last := |nodes| - 1;
    if i == last {
      assert nodes[i := node][..last] == nodes[..last];
    } else {
      assert nodes[i := node][..last] == nodes[..last][i := node];
      OwnersUpdate(nodes[..last], i, node, e);
    }
  }

  lemma OwnersAppend(nodes: seq<Node>, node: Node, e: nat)
    ensures Owners(nodes + [node], e) == Owners(nodes, e) + One(Owns(node, e))
  {
    assert (nodes + [node])[..|nodes|] == nodes;
  }

  // What a decoding from `g` to `h` adds: an edge to each new node except the one at `root`.
  ghost predicate Adds(g: Graph, h: Graph, root: nat, k: nat, e: nat) {
    && Hits(h.edges, k) == Hits(g.edges, k) + One(|g.nodes| <= k < |h.nodes| && k != root)
    && Owners(h.nodes, e) == Owners(g.nodes, e) + One(|g.edges| <= e < |h.edges|)
  }

  ghost predicate Prefix(g: Graph, h: Graph) {
    g.nodes <= h.nodes && g.edges <= h.edges
  }

  // No container that is already laid out leads to `node`.
  ghost predicate Orphan(g: Graph, node: nat)
    requires Ranged(g)
  {
    forall n: nat, e: nat :: n < |g.nodes| && Owns(g.nodes[n], e) ==> g.edges[e].valueNode != node
  }

  ghost predicate Fresh(g: Graph, node: nat) {
    && node < |g.nodes| && g.nodes[node].edgeOffset == g.nodes[node].edgeCount == 0
    && Ranged(g) && Orphan(g, node)
  }

  ghost predicate Targets(pending: seq<Edge>, node: nat, nodeCount: nat) {
    forall j :: 0 <= j < |pending| ==> node < pending[j].valueNode < nodeCount
  }

  lemma AppendKeepsRanges(g: Graph, node: Node, config: Config, k: nat, e: nat)
    requires Ranged(g) && node.edgeOffset == node.edgeCount == 0 && AppendNode(g, node, config).Done?
    ensures
      var h := AppendNode(g, node, config).graph;
      && Fresh(h, |g.nodes|) && Prefix(g, h)
      && Hits(h.edges, k) == Hits(g.edges, k) && Owners(h.nodes, e) == Owners(g.nodes, e)
  {
    var h := AppendNode(g, node, config).graph;
    OwnersAppend(g.nodes, node, e);
    forall n: nat, x: nat | n < |h.nodes| && Owns(h.nodes[n], x)
      ensures Descends(h, n, x) && h.edges[x].valueNode != |g.nodes|
    {
      assert Owns(g.nodes[n], x) && Descends(g, n, x);
    }
  }

  lemma FinishKeepsRanges(g: Graph, node: nat, pending: seq<Edge>, config: Config, k: nat, e: nat)
    requires Fresh(g, node) && Targets(pending, node, |g.nodes|)
    requires FinishContainer(g, node, pending, config).Done?
    ensures
      var h := FinishContainer(g, node, pending, config).graph;
      && Ranged(h)
      && h.nodes[..node] == g.nodes[..node] && |h.nodes| == |g.nodes| && g.edges <= h.edges
      && Hits(h.edges, k) == Hits(g.edges, k) + Hits(pending, k)
      && Owners(h.nodes, e) == Owners(g.nodes, e) + One(|g.edges| <= e < |h.edges|)
  {
    var h := FinishContainer(g, node, pending, config).graph;
    HitsConcat(g.edges, pending, k);
    OwnersUpdate(g.nodes, node, h.nodes[node], e);
    forall n: nat, x: nat | n < |h.nodes| && Owns(h.nodes[n], x)
      ensures Descends(h, n, x)
    {
      if n != node {
        assert Owns(g.nodes[n], x) && Descends(g, n, x) && g.edges[x].valueNode != node;
      } else {
        assert h.edges[x] == pending[x - |g.edges|];
      }
    }
  }

  lemma OrphanStays(g: Graph, h: Graph, node: nat)
    requires Fresh(g, node) && Ranged(h) && Prefix(g, h)
    ensures Fresh(h, node)
  {
    forall n: nat, e: nat | n < |h.nodes| && Owns(h.nodes[n], e)
      ensures h.edges[e].valueNode != node
    {
      assert Descends(h, n, e);
      if n < |g.nodes| {
        assert Owns(g.nodes[n], e) && Descends(g, n, e);
      }
    }
  }

  // ---- The tree, by induction over the document

  lemma {:induction false} DecodeAdds(v: Value, depth: nat, g: Graph, config: Config, k: nat, e: nat)
    requires Ranged(g) && Decode(v, depth, g, config).Done?
    ensures
      var h := Decode(v, depth, g, config).graph;
      Ranged(h) && Prefix(g, h) && Adds(g, h, |g.nodes|, k, e)
    decreases v, 1, 0
  {
    hide Ranged, Fresh, Hits, Owners, DecodeScalar, DecodeItems;
    if v.Container() {
      var node := Node(ContainerKind(v), 0, 0);
      var entered := AppendNode(g, node, config).graph;
      AppendKeepsRanges(g, node, config, k, e);
      ItemsAdd(v, 0, depth, [], |g.nodes|, entered, config, k, e);
      NoHits(k);
      assert entered.nodes[..|g.nodes|] == g.nodes;
    } else {
      ScalarAdds(v, g, config, k, e);
    }
  }

  lemma ScalarAdds(v: Value, g: Graph, config: Config, k: nat, e: nat)
    requires Ranged(g) && !v.Container() && DecodeScalar(v, g, config).Done?
    ensures
      var h := DecodeScalar(v, g, config).graph;
      Ranged(h) && Prefix(g, h) && Adds(g, h, |g.nodes|, k, e)
  {
    if v.String? {
      var copied := CopyBytes(g, v.text, config);
      BytesDoNotMatter(g, copied.graph);
      AppendKeepsRanges(copied.graph, Node(StringNode(copied.node, |v.text|), 0, 0), config, k, e);
    } else {
      AppendKeepsRanges(g, Node(ScalarKind(v).value, 0, 0), config, k, e);
    }
  }

  lemma BytesDoNotMatter(g: Graph, h: Graph)
    requires Ranged(g) && h.nodes == g.nodes && h.edges == g.edges
    ensures Ranged(h)
    ensures forall node :: Fresh(g, node) ==> Fresh(h, node)
  {
    forall n: nat, e: nat | n < |h.nodes| && Owns(h.nodes[n], e)
      ensures Descends(h, n, e)
    {
      assert Descends(g, n, e);
    }
  }

  lemma {:induction false} ItemsAdd(v: Value, i: nat, depth: nat, pending: seq<Edge>, node: nat, g: Graph,
                                    config: Config, k: nat, e: nat)
    requires v.Container() && i <= Size(v) && Fresh(g, node) && Targets(pending, node, |g.nodes|)
    requires DecodeItems(v, i, depth, pending, node, g, config).Done?
    ensures
      var h := DecodeItems(v, i, depth, pending, node, g, config).graph;
      && Ranged(h)
      && |g.nodes| <= |h.nodes| && h.nodes[..node] == g.nodes[..node] && g.edges <= h.edges
      && Hits(h.edges, k) == Hits(g.edges, k) + Hits(pending, k) + One(|g.nodes| <= k < |h.nodes|)
      && Owners(h.nodes, e) == Owners(g.nodes, e) + One(|g.edges| <= e < |h.edges|)
    decreases v, 0, Size(v) - i
  {
    if i == Size(v) {
      FinishKeepsRanges(g, node, pending, config, k, e);
    } else {
      var item := DecodeItem(v, i, depth, |pending|, g, config);
      ItemAdds(v, i, depth, |pending|, g, config, k, e);
      OrphanStays(g, item.graph, node);
      HitsConcat(pending, [item.edge], k);
      ItemsAdd(v, i + 1, depth, pending + [item.edge], node, item.graph, config, k, e);
    }
  }

  lemma {:induction false} ItemAdds(v: Value, i: nat, depth: nat, entries: nat, g: Graph, config: Config, k: nat,
                                    e: nat)
    requires v.Container() && i < Size(v) && Ranged(g)
    requires DecodeItem(v, i, depth, entries, g, config).DoneItem?
    ensures
      var item := DecodeItem(v, i, depth, entries, g, config);
      && Ranged(item.graph) && Prefix(g, item.graph)
      && item.edge.valueNode == |g.nodes| < |item.graph.nodes|
      && Adds(g, item.graph, |g.nodes|, k, e)
      && Hits([item.edge], k) == One(k == |g.nodes|)
    decreases v, 0, 0
  {
    var keyed := if v.Object? then CopyBytes(g, ItemKey(v, i), config) else Done(g, RANGE_UNAVAILABLE);
    BytesDoNotMatter(g, keyed.graph);
    DecodeAdds(Item(v, i), depth + 1, keyed.graph, config, k, e);
    OneHit(DecodeItem(v, i, depth, entries, g, config).edge, k);
  }

  lemma NoHits(k: nat)
    ensures Hits([], k) == 0
  {
  }

  lemma OneHit(edge: Edge, k: nat)
    ensures Hits([edge], k) == One(edge.valueNode == k)
  {
    assert [edge][..0] == [];
  }

  /** A published graph is a tree rooted at node 0. */
  lemma PublishedIsTree(v: Value, config: Config)
    requires DecodeDocument(v, config).Done?
    ensures IsTree(DecodeDocument(v, config).graph)
  {
    var h := DecodeDocument(v, config).graph;
    DecodeAdds(v, 1, EMPTY_GRAPH, config, 0, 0);
    forall k: nat
      ensures Hits(h.edges, k) == One(0 < k < |h.nodes|)
    {
      DecodeAdds(v, 1, EMPTY_GRAPH, config, k, 0);
    }
    forall e: nat
      ensures Owners(h.nodes, e) == One(e < |h.edges|)
    {
      DecodeAdds(v, 1, EMPTY_GRAPH, config, 0, e);
    }
  }

  /** In a tree, every node but the root has a parent with a smaller number. */
  lemma {:induction false} HitHasEdge(edges: seq<Edge>, k: nat) returns (e: nat)
    requires Hits(edges, k) > 0
    ensures e < |edges| && edges[e].valueNode == k
  {
    e := |edges| - 1;
    if edges[e].valueNode != k {
      e := HitHasEdge(edges[..e], k);
    }
  }

  lemma {:induction false} OwnedHasOwner(nodes: seq<Node>, e: nat) returns (n: nat)
    requires Owners(nodes, e) > 0
    ensures n < |nodes| && Owns(nodes[n], e)
  {
    n := |nodes| - 1;
    if !Owns(nodes[n], e) {
      n := OwnedHasOwner(nodes[..n], e);
    }
  }

  lemma EveryNodeHasAParent(g: Graph, k: nat) returns (parent: nat, e: nat)
    requires IsTree(g) && 0 < k < |g.nodes|
    ensures parent < k && Owns(g.nodes[parent], e) && e < |g.edges| && g.edges[e].valueNode == k
  {
    e := HitHasEdge(g.edges, k);
    parent := OwnedHasOwner(g.nodes, e);
    assert Descends(g, parent, e);
  }
}
