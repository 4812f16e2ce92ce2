/** Reading a published flat graph back gives the document it was decoded from. */
module DecodeRead {
  import opened Json
  import opened DecodeSpec

  // ---- What a graph says about a value

  /** The number of nodes that a value takes. */
  function NodeCount(v: Value): (r: nat)
    ensures r > 0
    decreases v, 1, 0
  {
    1 + NodesBefore(v, Size(v))
  }

  function NodesBefore(v: Value, i: nat): nat
    requires i <= Size(v)
    decreases v, 0, i
  {
    if i == 0 then 0
    else NodesBefore(v, i - 1) + if ItemReadable(v, i - 1) then NodeCount(Item(v, i - 1)) else 0
  }

  predicate InRange(offset: nat, length: nat, size: nat) {
    offset + length <= size
  }

  function EdgesOf(g: Graph, n: nat): (r: seq<Edge>)
    requires n < |g.nodes| && InRange(g.nodes[n].edgeOffset, g.nodes[n].edgeCount, |g.edges|)
    ensures |r| == g.nodes[n].edgeCount
  {
    var from := g.nodes[n].edgeOffset;
    g.edges[from..from + g.nodes[n].edgeCount]
  }

  /** The subtree of `v` starts at node `n`. */
  ghost predicate Represents(g: Graph, n: nat, v: Value)
    decreases v, 1
  {
    n < |g.nodes| &&
    if v.Container() then
      var node := g.nodes[n];
      && node.kind == ContainerKind(v)
      && node.edgeCount == Size(v)
      && InRange(node.edgeOffset, node.edgeCount, |g.edges|)
      && forall i :: 0 <= i < Size(v) ==> EdgeFor(g, EdgesOf(g, n)[i], v, i, n)
    else ScalarRepresented(g, n, v)
  }

  /** The edge of item `i` of the container at `node`. In preorder, its target follows all earlier items. */
  ghost predicate EdgeFor(g: Graph, e: Edge, v: Value, i: nat, node: nat)
    requires i < Size(v)
    decreases v, 0
  {
    && ItemReadable(v, i)
    && KeyMatches(g, e, v, i)
    && e.valueNode == node + 1 + NodesBefore(v, i)
    && Represents(g, e.valueNode, Item(v, i))
  }

  ghost predicate ScalarRepresented(g: Graph, n: nat, v: Value)
    requires !v.Container() && n < |g.nodes|
  {
    var node := g.nodes[n];
    && node.edgeCount == 0
    && if v.String? then
      && node.kind.StringNode?
      && InRange(node.kind.offset, node.kind.length, |g.bytes|)
      && g.bytes[node.kind.offset..node.kind.offset + node.kind.length] == v.text
    else ScalarKind(v) == Some(node.kind)
  }

  ghost predicate KeyMatches(g: Graph, e: Edge, v: Value, i: nat)
    requires i < Size(v) && ItemReadable(v, i)
  {
    if v.Object? then
      && InRange(e.keyOffset, e.keyLength, |g.bytes|)
      && g.bytes[e.keyOffset..e.keyOffset + e.keyLength] == ItemKey(v, i)
    else e.keyOffset == e.keyLength == RANGE_UNAVAILABLE
  }

  // Growth that leaves the nodes from `n` on as they are.
  ghost predicate Grows(g: Graph, h: Graph, n: nat) {
    && |g.nodes| <= |h.nodes| && g.edges <= h.edges && g.bytes <= h.bytes
    && forall k :: n <= k < |g.nodes| ==> h.nodes[k] == g.nodes[k]
  }

  lemma {:induction false} RepresentsGrows(g: Graph, h: Graph, n: nat, v: Value)
    requires Represents(g, n, v) && Grows(g, h, n)
    ensures Represents(h, n, v)
    decreases v, 1
  {
    if v.Container() {
      assert EdgesOf(h, n) == EdgesOf(g, n);
      forall i | 0 <= i < Size(v)
        ensures EdgeFor(h, EdgesOf(h, n)[i], v, i, n)
      {
        EdgeForGrows(g, h, EdgesOf(g, n)[i], v, i, n);
      }
    }
  }

  lemma {:induction false} EdgeForGrows(g: Graph, h: Graph, e: Edge, v: Value, i: nat, node: nat)
    requires i < Size(v) && EdgeFor(g, e, v, i, node) && Grows(g, h, node + 1)
    ensures EdgeFor(h, e, v, i, node)
    decreases v, 0
  {
    RepresentsGrows(g, h, e.valueNode, Item(v, i));
  }

  // ---- Decoding represents its document

  lemma {:induction false} DecodeRepresents(v: Value, depth: nat, g: Graph, config: Config)
    requires Decode(v, depth, g, config).Done?
    ensures
      var h := Decode(v, depth, g, config).graph;
      && Grows(g, h, 0)
      && |h.nodes| == |g.nodes| + NodeCount(v)
      && Represents(h, |g.nodes|, v)
    decreases v, 1, 0
  {
    if v.Container() {
      var entered := AppendNode(g, Node(ContainerKind(v), 0, 0), config);
      ItemsRepresent(v, 0, depth, [], entered.node, entered.graph, config);
    }
  }

  lemma {:induction false} ItemsRepresent(v: Value, i: nat, depth: nat, pending: seq<Edge>, node: nat, g: Graph,
                                          config: Config)
    requires v.Container() && i <= Size(v) && |pending| == i
    requires |g.nodes| == node + 1 + NodesBefore(v, i) && g.nodes[node].kind == ContainerKind(v)
    requires forall j :: 0 <= j < i ==> EdgeFor(g, pending[j], v, j, node)
    requires DecodeItems(v, i, depth, pending, node, g, config).Done?
    ensures
      var h := DecodeItems(v, i, depth, pending, node, g, config).graph;
      && Grows(g, h, node + 1) && h.nodes[..node] == g.nodes[..node]
      && |h.nodes| == node + NodeCount(v)
      && Represents(h, node, v)
    decreases v, 0, Size(v) - i
  {
    hide Represents, EdgeFor, Decode;
    if i == Size(v) {
      ContainerRepresented(v, pending, node, g, config);
    } else {
      var item := DecodeItem(v, i, depth, i, g, config);
      ItemRepresented(v, i, depth, node, g, config);
      var more := pending + [item.edge];
      forall j | 0 <= j < i + 1
        ensures EdgeFor(item.graph, more[j], v, j, node)
      {
        if j < i {
          EdgeForGrows(g, item.graph, pending[j], v, j, node);
        }
      }
      ItemsRepresent(v, i + 1, depth, more, node, item.graph, config);
    }
  }

  lemma ContainerRepresented(v: Value, pending: seq<Edge>, node: nat, g: Graph, config: Config)
    requires v.Container() && |pending| == Size(v)
    requires |g.nodes| == node + NodeCount(v) && g.nodes[node].kind == ContainerKind(v)
    requires forall j :: 0 <= j < Size(v) ==> EdgeFor(g, pending[j], v, j, node)
    requires FinishContainer(g, node, pending, config).Done?
    ensures
      var h := FinishContainer(g, node, pending, config).graph;
      && Grows(g, h, node + 1) && h.nodes[..node] == g.nodes[..node]
      && Represents(h, node, v)
  {
    var h := FinishContainer(g, node, pending, config).graph;
    assert EdgesOf(h, node) == pending;
    forall j | 0 <= j < Size(v)
      ensures EdgeFor(h, pending[j], v, j, node)
    {
      EdgeForGrows(g, h, pending[j], v, j, node);
    }
  }

  lemma {:induction false} ItemRepresented(v: Value, i: nat, depth: nat, node: nat, g: Graph, config: Config)
    requires v.Container() && i < Size(v)
    requires |g.nodes| == node + 1 + NodesBefore(v, i)
    requires DecodeItem(v, i, depth, i, g, config).DoneItem?
    ensures
      var item := DecodeItem(v, i, depth, i, g, config);
      && Grows(g, item.graph, 0)
      && |item.graph.nodes| == node + 1 + NodesBefore(v, i + 1)
      && EdgeFor(item.graph, item.edge, v, i, node)
    decreases v, 0, 0
  {
    var keyed := if v.Object? then CopyBytes(g, ItemKey(v, i), config) else Done(g, RANGE_UNAVAILABLE);
    DecodeRepresents(Item(v, i), depth + 1, keyed.graph, config);
  }

  // ---- Reading back

  /** The value at a node, if the ranges below it stay inside the graph. */
  function Read(g: Graph, n: nat): Option<Value>
    requires n < |g.nodes|
    decreases |g.nodes| - n, 1, 0
  {
    var node := g.nodes[n];
    match node.kind
    case NullNode => Some(Null)
    case TrueNode => Some(Boolean(true))
    case FalseNode => Some(Boolean(false))
    case SignedNode(i) => Some(Number([], Signed(i)))
    case UnsignedNode(u) => Some(Number([], Unsigned(u)))
    case DoubleNode(d) => Some(Number([], Floating(d)))
    case StringNode(offset, length) =>
      if InRange(offset, length, |g.bytes|) then Some(String(g.bytes[offset..offset + length])) else None
    case ArrayNode =>
      if !InRange(node.edgeOffset, node.edgeCount, |g.edges|) then None
      else
        var elements := ReadElements(g, n, node.edgeOffset, node.edgeOffset + node.edgeCount);
        if elements.None? then None else Some(Array(elements.value))
    case ObjectNode =>
      if !InRange(node.edgeOffset, node.edgeCount, |g.edges|) then None
      else
        var fields := ReadFields(g, n, node.edgeOffset, node.edgeOffset + node.edgeCount);
        if fields.None? then None else Some(Object(fields.value))
  }

  function ReadElements(g: Graph, n: nat, from: nat, end: nat): Option<seq<Value>>
    requires n < |g.nodes| && from <= end <= |g.edges|
    decreases |g.nodes| - n, 0, end - from
  {
    if from == end then Some([])
    else
      var e := g.edges[from];
      if !(n < e.valueNode < |g.nodes|) then None
      else
        var first := Read(g, e.valueNode);
        var rest := ReadElements(g, n, from + 1, end);
        if first.None? || rest.None? then None else Some([first.value] + rest.value)
  }

  function ReadFields(g: Graph, n: nat, from: nat, end: nat): Option<seq<Field>>
    requires n < |g.nodes| && from <= end <= |g.edges|
    decreases |g.nodes| - n, 0, end - from
  {
    if from == end then Some([])
    else
      var e := g.edges[from];
      if !(n < e.valueNode < |g.nodes|) || !InRange(e.keyOffset, e.keyLength, |g.bytes|) then None
      else
        var first := Read(g, e.valueNode);
        var rest := ReadFields(g, n, from + 1, end);
        if first.None? || rest.None? then None
        else Some([Field(g.bytes[e.keyOffset..e.keyOffset + e.keyLength], first.value)] + rest.value)
  }

  lemma {:induction false} ReadRepresented(g: Graph, n: nat, v: Value)
    requires Represents(g, n, v)
    ensures Read(g, n) == Some(Plain(v))
    decreases v, 1, 0
  {
    if v.Array? {
      ReadElementsOf(g, n, v, 0);
    } else if v.Object? {
      ReadFieldsOf(g, n, v, 0);
    }
  }

  lemma {:induction false} ReadElementsOf(g: Graph, n: nat, v: Value, i: nat)
    requires Represents(g, n, v) && v.Array? && i <= Size(v)
    ensures
      var from := g.nodes[n].edgeOffset;
      ReadElements(g, n, from + i, from + Size(v)) == Some(PlainElements(v, i))
    decreases v, 0, Size(v) - i
  {
    if i < Size(v) {
      var e := EdgeRepresents(g, n, v, i);
      hide Represents, Read, Plain;
      ReadRepresented(g, e.valueNode, v.elements[i]);
      ReadElementsOf(g, n, v, i + 1);
    }
  }

  lemma {:induction false} ReadFieldsOf(g: Graph, n: nat, v: Value, i: nat)
    requires Represents(g, n, v) && v.Object? && i <= Size(v)
    ensures
      var from := g.nodes[n].edgeOffset;
      ReadFields(g, n, from + i, from + Size(v)) == Some(PlainFields(v, i))
    decreases v, 0, Size(v) - i
  {
    if i < Size(v) {
      var e := EdgeRepresents(g, n, v, i);
      hide Represents, Read, Plain;
      ReadRepresented(g, e.valueNode, v.fields[i].value);
      ReadFieldsOf(g, n, v, i + 1);
    }
  }

  lemma RepresentedExists(g: Graph, n: nat, v: Value)
    requires Represents(g, n, v)
    ensures n < |g.nodes|
  {
  }

  lemma EdgeRepresents(g: Graph, n: nat, v: Value, i: nat) returns (e: Edge)
    requires Represents(g, n, v) && v.Container() && i < Size(v)
    ensures InRange(g.nodes[n].edgeOffset, Size(v), |g.edges|) && e == g.edges[g.nodes[n].edgeOffset + i]
    ensures ItemReadable(v, i) && KeyMatches(g, e, v, i)
    ensures n < e.valueNode < |g.nodes| && Represents(g, e.valueNode, Item(v, i))
  {
    e := EdgesOf(g, n)[i];
    assert EdgeFor(g, e, v, i, n);
    RepresentedExists(g, e.valueNode, Item(v, i));
  }

  /** The round trip: source order, duplicate keys, string bytes and number kinds all survive. */
  lemma DecodeReadsBack(v: Value, config: Config)
    requires DecodeDocument(v, config).Done?
    ensures
      var g := DecodeDocument(v, config).graph;
      && Read(g, 0) == Some(Plain(v))
      && |g.nodes| == NodeCount(v)
  {
    DecodeRepresents(v, 1, EMPTY_GRAPH, config);
    ReadRepresented(DecodeDocument(v, config).graph, 0, v);
  }

  /** Nothing but raw number text is lost: equal graphs come from equal documents. */
  lemma DecodeIsInjective(v: Value, w: Value, config: Config)
    requires DecodeDocument(v, config).Done? && DecodeDocument(v, config) == DecodeDocument(w, config)
    ensures Plain(v) == Plain(w)
  {
    DecodeReadsBack(v, config);
    DecodeReadsBack(w, config);
  }
}
