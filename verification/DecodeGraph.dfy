/** The consumer's check of a published graph before its ranges are trusted. */
module DecodeGraph {
  import opened Json
  import opened DecodeSpec
  import opened DecodeRead
  import opened DecodeMaterializer
  import opened Validation

  /** What a consumer receives: an empty part has no storage at all. */
  datatype GraphView = GraphView(
    nodes: Option<seq<Node>>, nodeCount: nat,
    edges: Option<seq<Edge>>, edgeCount: nat,
    bytes: Option<Bytes>, byteCount: nat,
    rootNode: nat)
  {
    // Storage holds as many items as its count says.
    predicate Sized() {
      && (nodes.Some? ==> |nodes.value| == nodeCount)
      && (edges.Some? ==> |edges.value| == edgeCount)
      && (bytes.Some? ==> |bytes.value| == byteCount)
    }
  }

  datatype CheckedGraph = CheckedGraph(graph: Graph, root: Option<nat>)

  // ---- What a consumer may accept

  ghost predicate NodeInRange(g: Graph, node: Node) {
    match node.kind
    case ObjectNode | ArrayNode => InRange(node.edgeOffset, node.edgeCount, |g.edges|)
    case StringNode(offset, length) => node.edgeCount == 0 && InRange(offset, length, |g.bytes|)
    case _ => node.edgeCount == 0
  }

  ghost predicate EdgeInRange(g: Graph, e: Edge) {
    && e.valueNode < |g.nodes|
    && (|| e.keyOffset == e.keyLength == RANGE_UNAVAILABLE
        || (InRange(e.keyOffset, e.keyLength, |g.bytes|) && e.keyOffset != RANGE_UNAVAILABLE
            && e.keyLength != RANGE_UNAVAILABLE))
  }

  /** Every range of every node and edge lies inside the graph. */
  ghost predicate AllInRange(g: Graph) {
    && (forall i :: 0 <= i < |g.nodes| ==> NodeInRange(g, g.nodes[i]))
    && (forall i :: 0 <= i < |g.edges| ==> EdgeInRange(g, g.edges[i]))
  }

  function OrEmpty<T>(items: Option<seq<T>>): seq<T> {
    if items.Some? then items.value else []
  }

  function GraphOf(view: GraphView): Graph {
    Graph(OrEmpty(view.nodes), OrEmpty(view.edges), OrEmpty(view.bytes))
  }

  ghost predicate Acceptable(view: GraphView) {
    var g := GraphOf(view);
    && (view.nodes.Some? <==> view.nodeCount > 0)
    && (view.edges.Some? <==> view.edgeCount > 0)
    && (view.bytes.Some? <==> view.byteCount > 0)
    && (if view.nodeCount == 0 then view.rootNode == RANGE_UNAVAILABLE else view.rootNode < view.nodeCount)
    && AllInRange(g)
  }

  // ---- The check

  function Outside(offset: nat, length: nat, size: nat): (r: bool)
    ensures r <==> !InRange(offset, length, size)
  {
    offset > size || length > size - offset
  }

  function NodeRejected(node: Node, edgeCount: nat, byteCount: nat): bool {
    match node.kind
    case ObjectNode | ArrayNode => Outside(node.edgeOffset, node.edgeCount, edgeCount)
    case StringNode(offset, length) => node.edgeCount != 0 || Outside(offset, length, byteCount)
    case _ => node.edgeCount != 0
  }

  method CheckGraph(view: GraphView) returns (r: Option<CheckedGraph>)
    requires view.Sized()
    ensures r.Some? <==> Acceptable(view)
    ensures r.Some? ==>
              && r.value.graph == GraphOf(view)
              && r.value.root == if view.nodeCount == 0 then None else Some(view.rootNode)
  {
    if view.nodes.None? != (view.nodeCount == 0) || view.edges.None? != (view.edgeCount == 0) ||
       view.bytes.None? != (view.byteCount == 0) {
      return None;
    }
    if view.nodeCount == 0 && view.rootNode != RANGE_UNAVAILABLE {
      return None;
    }
    if view.nodeCount != 0 && view.rootNode >= view.nodeCount {
      return None;
    }
    var g := GraphOf(view);
    for i := 0 to |g.nodes|
      invariant forall j :: 0 <= j < i ==> NodeInRange(g, g.nodes[j])
    {
      if NodeRejected(g.nodes[i], view.edgeCount, view.byteCount) {
        assert !NodeInRange(g, g.nodes[i]);
        return None;
      }
    }
    for i := 0 to |g.edges|
      invariant forall j :: 0 <= j < i ==> EdgeInRange(g, g.edges[j])
    {
      var e := g.edges[i];
      var unavailable := e.keyOffset == RANGE_UNAVAILABLE && e.keyLength == RANGE_UNAVAILABLE;
      if e.valueNode >= view.nodeCount ||
         (!unavailable && Outside(e.keyOffset, e.keyLength, view.byteCount)) ||
         (!unavailable && (e.keyOffset == RANGE_UNAVAILABLE || e.keyLength == RANGE_UNAVAILABLE)) {
        assert !EdgeInRange(g, e);
        return None;
      }
    }
    r := Some(CheckedGraph(g, if view.nodeCount == 0 then None else Some(view.rootNode)));
  }

  // ---- Every published graph is accepted

  function Part<T>(items: seq<T>): Option<seq<T>> {
    if items == [] then None else Some(items)
  }

  function ReadResult(g: Graph, rootNode: nat): (r: GraphView)
    ensures r.Sized() && GraphOf(r) == g
  {
    GraphView(Part(g.nodes), |g.nodes|, Part(g.edges), |g.edges|, Part(g.bytes), |g.bytes|, rootNode)
  }

  ghost predicate Widens(g: Graph, h: Graph) {
    |g.nodes| <= |h.nodes| && |g.edges| <= |h.edges| && |g.bytes| <= |h.bytes|
  }

  ghost predicate AllEdgesInRange(g: Graph, edges: seq<Edge>) {
    forall j :: 0 <= j < |edges| ==> EdgeInRange(g, edges[j])
  }

  lemma {:induction false} DecodeStaysInRange(v: Value, depth: nat, g: Graph, config: Config)
    requires config.Valid() && AllInRange(g) && Decode(v, depth, g, config).Done?
    ensures
      var h := Decode(v, depth, g, config).graph;
      AllInRange(h) && Widens(g, h)
    decreases v, 1, 0
  {
    if v.Container() {
      var entered := AppendNode(g, Node(ContainerKind(v), 0, 0), config);
      ItemsStayInRange(v, 0, depth, [], entered.node, entered.graph, config);
    }
  }

  lemma {:induction false} ItemsStayInRange(v: Value, i: nat, depth: nat, pending: seq<Edge>, node: nat, g: Graph,
                                            config: Config)
    requires v.Container() && i <= Size(v) && node < |g.nodes| && config.Valid()
    requires AllInRange(g) && AllEdgesInRange(g, pending) && (g.nodes[node].kind == ContainerKind(v))
    requires DecodeItems(v, i, depth, pending, node, g, config).Done?
    ensures
      var h := DecodeItems(v, i, depth, pending, node, g, config).graph;
      AllInRange(h) && Widens(g, h)
    decreases v, 0, Size(v) - i
  {
    if i < Size(v) {
      var item := DecodeItem(v, i, depth, |pending|, g, config);
      ItemStaysInRange(v, i, depth, |pending|, g, config);
      DecodeItemKeepsNodes(v, i, depth, |pending|, g, config);
      ItemsStayInRange(v, i + 1, depth, pending + [item.edge], node, item.graph, config);
    }
  }

  lemma DecodeItemKeepsNodes(v: Value, i: nat, depth: nat, entries: nat, g: Graph, config: Config)
    requires v.Container() && i < Size(v)
    requires DecodeItem(v, i, depth, entries, g, config).DoneItem?
    ensures g.nodes <= DecodeItem(v, i, depth, entries, g, config).graph.nodes
  {
    var keyed := if v.Object? then CopyBytes(g, ItemKey(v, i), config) else Done(g, RANGE_UNAVAILABLE);
    DecodeRepresents(Item(v, i), depth + 1, keyed.graph, config);
  }

  lemma {:induction false} ItemStaysInRange(v: Value, i: nat, depth: nat, entries: nat, g: Graph, config: Config)
    requires v.Container() && i < Size(v) && config.Valid() && AllInRange(g)
    requires DecodeItem(v, i, depth, entries, g, config).DoneItem?
    ensures
      var item := DecodeItem(v, i, depth, entries, g, config);
      AllInRange(item.graph) && Widens(g, item.graph) && EdgeInRange(item.graph, item.edge)
    decreases v, 0, 0
  {
    var keyed := if v.Object? then CopyBytes(g, ItemKey(v, i), config) else Done(g, RANGE_UNAVAILABLE);
    DecodeStaysInRange(Item(v, i), depth + 1, keyed.graph, config);
  }

  /** What the materializer publishes always passes the consumer's check, with its root at node 0. */
  lemma PublishedIsAccepted(v: Value, config: Config)
    requires config.Valid() && DecodeDocument(v, config).Done?
    ensures Acceptable(ReadResult(DecodeDocument(v, config).graph, 0))
  {
    DecodeStaysInRange(v, 1, EMPTY_GRAPH, config);
  }

  /** An executed materializer's result is accepted and reads back as the document. */
  method ExecuteAndCheck(materializer: Materializer, cancellation: Cancellation)
    returns (status: StatusCode, checked: Option<CheckedGraph>)
    requires materializer.config.Valid() && materializer.frames == [] && !materializer.consumed
    modifies materializer, cancellation
    ensures status == OK <==> checked.Some?
    ensures status == OK ==>
              && checked.value.root == Some(0)
              && |checked.value.graph.nodes| > 0
              && Read(checked.value.graph, 0) == Some(Plain(materializer.document))
  {
    var result;
    status, result := materializer.Execute(cancellation);
    checked := None;
    if status == OK {
      checked := CheckGraph(ReadResult(result.View(), result.rootNode));
      PublishedIsAccepted(materializer.document, materializer.config);
      DecodeReadsBack(materializer.document, materializer.config);
    }
  }
}
