/** Recursive decoding of a document into a flat graph: the meaning of the materializer. */
module DecodeSpec {
  import opened Json

  const NODE_BYTES: nat := 40

  const EDGE_BYTES: nat := 32

  const RANGE_UNAVAILABLE: nat := 0xFFFF_FFFF_FFFF_FFFF

  const DECODE_MAX_CONTAINER_ENTRIES: nat := 10_000_000

  const DECODE_MAX_STRING_BYTES: nat := 67_108_864

  const DECODE_MAX_OUTPUT_BYTES: nat := 268_435_456

  datatype Config = Config(maxDepth: nat, maxContainerEntries: nat, maxStringBytes: nat, maxOutputBytes: nat)
  {
    predicate Valid() {
      && 0 < maxDepth <= MAX_DEPTH
      && 0 < maxContainerEntries <= DECODE_MAX_CONTAINER_ENTRIES
      && 0 < maxStringBytes <= DECODE_MAX_STRING_BYTES
      && 0 < maxOutputBytes <= DECODE_MAX_OUTPUT_BYTES
    }
  }

  datatype Kind =
    | ObjectNode
    | ArrayNode
    | StringNode(offset: nat, length: nat)
    | SignedNode(int64: int)
    | UnsignedNode(uint64: nat)
    | DoubleNode(double: Double)
    | TrueNode
    | FalseNode
    | NullNode

  datatype Node = Node(kind: Kind, edgeOffset: nat, edgeCount: nat)

  datatype Edge = Edge(keyOffset: nat, keyLength: nat, valueNode: nat)

  datatype Graph = Graph(nodes: seq<Node>, edges: seq<Edge>, bytes: Bytes)

  const EMPTY_GRAPH := Graph([], [], [])

  function Retained(g: Graph): nat {
    |g.nodes| * NODE_BYTES + |g.edges| * EDGE_BYTES + |g.bytes|
  }

  predicate BudgetAllows(g: Graph, added: nat, config: Config) {
    Retained(g) + added <= config.maxOutputBytes
  }

  datatype Decoded = Done(graph: Graph, node: nat) | Stopped(code: StatusCode)

  function DecodeStatus(error: SimdError): StatusCode {
    match error
    case Utf8Error => InvalidUtf8
    case EmptyInput | UnclosedString | IncompleteArrayOrObject => UnexpectedEof
    case MemAlloc | OutOfCapacity => OutOfMemory
    case BigIntError | NumberTooLarge | NumberError => NumberOutOfRange
    case _ => InvalidJson
  }

  // ---- Bounded growth

  function CopyBytes(g: Graph, bytes: Bytes, config: Config): Decoded {
    if |bytes| > config.maxStringBytes then Stopped(MaxStringBytesExceeded)
    else if !BudgetAllows(g, |bytes|, config) then Stopped(MaxOutputBytesExceeded)
    else Done(g.(bytes := g.bytes + bytes), |g.bytes|)
  }

  function AppendNode(g: Graph, node: Node, config: Config): Decoded {
    if !BudgetAllows(g, NODE_BYTES, config) then Stopped(MaxOutputBytesExceeded)
    else Done(g.(nodes := g.nodes + [node]), |g.nodes|)
  }

  function FinishContainer(g: Graph, node: nat, pending: seq<Edge>, config: Config): Decoded
    requires node < |g.nodes|
  {
    if |pending| > config.maxContainerEntries then Stopped(MaxContainerEntriesExceeded)
    else if !BudgetAllows(g, |pending| * EDGE_BYTES, config) then Stopped(MaxOutputBytesExceeded)
    else
      var filled := g.nodes[node].(edgeOffset := |g.edges|, edgeCount := |pending|);
      Done(g.(nodes := g.nodes[node := filled], edges := g.edges + pending), node)
  }

  // ---- Recursive decoding

  function ScalarKind(v: Value): Option<Kind>
    requires !v.Container()
  {
    match v
    case Null => Some(NullNode)
    case Boolean(b) => Some(if b then TrueNode else FalseNode)
    case Number(_, Signed(i)) => Some(SignedNode(i))
    case Number(_, Unsigned(u)) => Some(UnsignedNode(u))
    case Number(_, Floating(d)) => if d.finite then Some(DoubleNode(d)) else None
    case _ => None
  }

  function ScalarStop(v: Value): StatusCode
    requires !v.Container()
  {
    match v
    case Number(_, Rejected(e)) => DecodeStatus(e)
    case Broken(e) => DecodeStatus(e)
    case Unreadable(e) => DecodeStatus(e)
    case _ => NumberOutOfRange
  }

  function DecodeScalar(v: Value, g: Graph, config: Config): Decoded
    requires !v.Container()
  {
    if v.String? then
      var copied := CopyBytes(g, v.text, config);
      if copied.Stopped? then copied
      else AppendNode(copied.graph, Node(StringNode(copied.node, |v.text|), 0, 0), config)
    else if ScalarKind(v).Some? then AppendNode(g, Node(ScalarKind(v).value, 0, 0), config)
    else Stopped(ScalarStop(v))
  }

  function ContainerKind(v: Value): Kind {
    if v.Object? then ObjectNode else ArrayNode
  }

  /** Decodes one value: the whole subtree of a container, numbered in preorder. */
  function Decode(v: Value, depth: nat, g: Graph, config: Config): (r: Decoded)
    ensures r.Done? ==> r.node == |g.nodes| < |r.graph.nodes|
    ensures r.Stopped? ==> r.code != OK && r.code != Cancelled
    decreases v, 1, 0
  {
    if depth > config.maxDepth then Stopped(MaxDepthExceeded)
    else if v.Container() then
      var entered := AppendNode(g, Node(ContainerKind(v), 0, 0), config);
      if entered.Stopped? then entered else DecodeItems(v, 0, depth, [], entered.node, entered.graph, config)
    else DecodeScalar(v, g, config)
  }

  /** Decodes the items of a container from the `i`-th on, then lays out its edges. */
  function DecodeItems(v: Value, i: nat, depth: nat, pending: seq<Edge>, node: nat, g: Graph, config: Config)
    : (r: Decoded)
    requires v.Container() && i <= Size(v) && node < |g.nodes|
    ensures r.Done? ==> r.node == node && |g.nodes| <= |r.graph.nodes|
    ensures r.Stopped? ==> r.code != OK && r.code != Cancelled
    decreases v, 0, Size(v) - i
  {
    if i == Size(v) then FinishContainer(g, node, pending, config)
    else
      var item := DecodeItem(v, i, depth, |pending|, g, config);
      if item.StoppedItem? then Stopped(item.code)
      else DecodeItems(v, i + 1, depth, pending + [item.edge], node, item.graph, config)
  }

  datatype DecodedItem = DoneItem(graph: Graph, edge: Edge) | StoppedItem(code: StatusCode)

  function DecodeItem(v: Value, i: nat, depth: nat, entries: nat, g: Graph, config: Config): (r: DecodedItem)
    requires v.Container() && i < Size(v)
    ensures r.DoneItem? ==> |g.nodes| <= |r.graph.nodes|
    ensures r.StoppedItem? ==> r.code != OK && r.code != Cancelled
    decreases v, 0, 0
  {
    if entries >= config.maxContainerEntries then StoppedItem(MaxContainerEntriesExceeded)
    else if !ItemReadable(v, i) then StoppedItem(DecodeStatus(v.fields[i].error))
    else
      var keyed := if v.Object? then CopyBytes(g, ItemKey(v, i), config) else Done(g, RANGE_UNAVAILABLE);
      if keyed.Stopped? then StoppedItem(keyed.code)
      else
        var child := Decode(Item(v, i), depth + 1, keyed.graph, config);
        if child.Stopped? then StoppedItem(child.code)
        else DoneItem(child.graph, ItemEdge(v, i, keyed.node, child.node))
  }

  function ItemEdge(v: Value, i: nat, keyOffset: nat, child: nat): Edge
    requires i < Size(v) && ItemReadable(v, i)
  {
    if v.Object? then Edge(keyOffset, |ItemKey(v, i)|, child)
    else Edge(RANGE_UNAVAILABLE, RANGE_UNAVAILABLE, child)
  }

  function DecodeDocument(v: Value, config: Config): Decoded {
    Decode(v, 1, EMPTY_GRAPH, config)
  }
}
