/** The materializer: an explicit stack of half-finished containers instead of recursion. */
module DecodeMaterializer {
  import opened Json
  import opened Validation
  import opened DecodeSpec

  datatype Frame = Frame(container: Value, position: nat, node: nat, depth: nat, awaitingChild: bool,
                         pending: seq<Edge>)
  {
    // The next item to open once the frame is resumed.
    function Next(): nat {
      if awaitingChild then position + 1 else position
    }

    ghost predicate Fits(nodeCount: nat) {
      container.Container() && Next() <= Size(container) && node < nodeCount
    }
  }

  class DecodeResult {
    var nodes: seq<Node>
    var edges: seq<Edge>
    var copiedBytes: Bytes
    var rootNode: nat

    constructor ()
      ensures View() == EMPTY_GRAPH
    {
      nodes, edges, copiedBytes, rootNode := [], [], [], RANGE_UNAVAILABLE;
    }

    function View(): Graph
      reads this
    {
      Graph(nodes, edges, copiedBytes)
    }

    // The status and the graph after a call are those of `d`.
    ghost predicate Follows(status: StatusCode, node: nat, d: Decoded)
      reads this
    {
      if d.Stopped? then status == d.code else status == OK && View() == d.graph && node == d.node
    }
  }

  const CHUNK_SIZE: nat := 16 * 1024

  method CopyBytesInto(result: DecodeResult, bytes: Bytes, config: Config, cancellation: Cancellation)
    returns (status: StatusCode, offset: nat)
    modifies result`copiedBytes, cancellation
    ensures old(cancellation.checks) <= cancellation.checks
    ensures status != Cancelled <==> cancellation.QuietSince(old(cancellation.checks))
    ensures status != Cancelled ==> result.Follows(status, offset, CopyBytes(old(result.View()), bytes, config))
  {
    offset := 0;
    if |bytes| > config.maxStringBytes {
      return MaxStringBytesExceeded, offset;
    }
    if !BudgetAllows(result.View(), |bytes|, config) {
      return MaxOutputBytesExceeded, offset;
    }
    offset := |result.copiedBytes|;
    var copied := 0;
    while copied < |bytes|
      invariant 0 <= copied <= |bytes|
      invariant old(cancellation.checks) <= cancellation.checks && cancellation.QuietSince(old(cancellation.checks))
      invariant result.copiedBytes == old(result.copiedBytes) + bytes[..copied]
    {
      var cancelled := cancellation.Requested();
      if cancelled {
        return Cancelled, offset;
      }
      var count := if CHUNK_SIZE < |bytes| - copied then CHUNK_SIZE else |bytes| - copied;
      assert bytes[..copied + count] == bytes[..copied] + bytes[copied..copied + count];
      result.copiedBytes := result.copiedBytes + bytes[copied..copied + count];
      copied := copied + count;
    }
    assert bytes[..copied] == bytes;
    status := OK;
  }

  method AppendNodeTo(result: DecodeResult, node: Node, config: Config) returns (status: StatusCode, index: nat)
    modifies result`nodes
    ensures status != Cancelled && result.Follows(status, index, AppendNode(old(result.View()), node, config))
  {
    index := |result.nodes|;
    if !BudgetAllows(result.View(), NODE_BYTES, config) {
      return MaxOutputBytesExceeded, index;
    }
    result.nodes := result.nodes + [node];
    status := OK;
  }

  method OpenScalar(v: Value, result: DecodeResult, config: Config, cancellation: Cancellation)
    returns (status: StatusCode, node: nat)
    requires !v.Container()
    modifies result`nodes, result`copiedBytes, cancellation
    ensures old(cancellation.checks) <= cancellation.checks
    ensures status != Cancelled <==> cancellation.QuietSince(old(cancellation.checks))
    ensures status != Cancelled ==> result.Follows(status, node, DecodeScalar(v, old(result.View()), config))
  {
    node := 0;
    if v.String? {
      var offset;
      status, offset := CopyBytesInto(result, v.text, config, cancellation);
      if status == OK {
        status, node := AppendNodeTo(result, Node(StringNode(offset, |v.text|), 0, 0), config);
      }
    } else if ScalarKind(v).None? {
      status := ScalarStop(v);
    } else {
      status, node := AppendNodeTo(result, Node(ScalarKind(v).value, 0, 0), config);
    }
  }

  // The key of an object's item; an array's item has none.
  ghost function Keyed(v: Value, i: nat, g: Graph, config: Config): Decoded
    requires i < Size(v) && ItemReadable(v, i)
  {
    if v.Object? then CopyBytes(g, ItemKey(v, i), config) else Done(g, RANGE_UNAVAILABLE)
  }

  method CopyKey(v: Value, i: nat, result: DecodeResult, config: Config, cancellation: Cancellation)
    returns (status: StatusCode, offset: nat)
    requires i < Size(v) && ItemReadable(v, i)
    modifies result`copiedBytes, cancellation
    ensures old(cancellation.checks) <= cancellation.checks
    ensures status != Cancelled <==> cancellation.QuietSince(old(cancellation.checks))
    ensures status != Cancelled ==> result.Follows(status, offset, Keyed(v, i, old(result.View()), config))
  {
    status, offset := OK, RANGE_UNAVAILABLE;
    if v.Object? {
      status, offset := CopyBytesInto(result, ItemKey(v, i), config, cancellation);
    }
  }

  method FinalizeFrame(result: DecodeResult, frame: Frame, config: Config) returns (status: StatusCode)
    requires frame.Fits(|result.nodes|) && |frame.pending| <= config.maxContainerEntries
    modifies result`nodes, result`edges
    ensures status == OK || status == MaxOutputBytesExceeded
    ensures result.Follows(status, frame.node, FinishContainer(old(result.View()), frame.node, frame.pending, config))
  {
    var count := |frame.pending|;
    if count > config.maxContainerEntries {
      return MaxContainerEntriesExceeded;
    }
    if !BudgetAllows(result.View(), count * EDGE_BYTES, config) {
      return MaxOutputBytesExceeded;
    }
    var filled := result.nodes[frame.node].(edgeOffset := |result.edges|, edgeCount := count);
    result.edges := result.edges + frame.pending;
    result.nodes := result.nodes[frame.node := filled];
    status := OK;
  }

  // ---- What is left to do: the stack as a recursive computation

  ghost predicate FramesFit(frames: seq<Frame>, nodeCount: nat) {
    forall k :: 0 <= k < |frames| ==> frames[k].Fits(nodeCount)
  }

  /** Finishes the innermost container recursively, then the rest of the stack. */
  ghost function Resume(frames: seq<Frame>, g: Graph, config: Config): Decoded
    requires FramesFit(frames, |g.nodes|)
    decreases |frames|
  {
    if frames == [] then Done(g, 0)
    else
      var top := frames[|frames| - 1];
      var rest := frames[..|frames| - 1];
      var r := DecodeItems(top.container, top.Next(), top.depth, top.pending, top.node, g, config);
      if r.Stopped? then r else Resume(rest, r.graph, config)
  }

  // ---- A bound on the remaining iterations

  function Weight(v: Value): nat
    decreases v, 1, 0
  {
    if v.Container() then 2 + WeightFrom(v, 0) else 1
  }

  function WeightFrom(v: Value, i: nat): nat
    requires i <= Size(v)
    decreases v, 0, Size(v) - i
  {
    if i == Size(v) then 0
    else (if ItemReadable(v, i) then Weight(Item(v, i)) else 1) + WeightFrom(v, i + 1)
  }

  function Work(frames: seq<Frame>): nat
    requires forall k :: 0 <= k < |frames| ==> frames[k].Next() <= Size(frames[k].container)
    decreases |frames|
  {
    if frames == [] then 0
    else
      var top := frames[|frames| - 1];
      1 + WeightFrom(top.container, top.Next()) + Work(frames[..|frames| - 1])
  }

  // ---- One step of the stack, against the recursion

  ghost function Top(frames: seq<Frame>): Frame
    requires frames != []
  {
    frames[|frames| - 1]
  }

  // The decoding of the item that the innermost container is about to open.
  ghost function NextItem(frames: seq<Frame>, g: Graph, config: Config): DecodedItem
    requires frames != [] && FramesFit(frames, |g.nodes|) && Top(frames).Next() < Size(Top(frames).container)
  {
    var top := Top(frames);
    DecodeItem(top.container, top.Next(), top.depth, |top.pending|, g, config)
  }

  // The innermost container waits for the child it just opened, whose edge is already pending.
  ghost function Waiting(frames: seq<Frame>, edge: Edge): seq<Frame>
    requires frames != []
  {
    var top := Top(frames);
    frames[|frames| - 1 := top.(position := top.Next(), awaitingChild := true, pending := top.pending + [edge])]
  }

  lemma ItemStops(frames: seq<Frame>, g: Graph, config: Config)
    requires frames != [] && FramesFit(frames, |g.nodes|) && Top(frames).Next() < Size(Top(frames).container)
    requires NextItem(frames, g, config).StoppedItem?
    ensures Resume(frames, g, config) == Stopped(NextItem(frames, g, config).code)
  {
  }

  lemma WaitingFits(frames: seq<Frame>, edge: Edge, nodeCount: nat, more: nat)
    requires frames != [] && FramesFit(frames, nodeCount) && nodeCount <= more
    requires Top(frames).Next() < Size(Top(frames).container)
    ensures FramesFit(Waiting(frames, edge), more)
    ensures Waiting(frames, edge)[..|frames| - 1] == frames[..|frames| - 1]
  {
  }

  /** Finishing a scalar item and waiting is one step of the recursion. */
  lemma ItemFinished(frames: seq<Frame>, g: Graph, config: Config)
    requires frames != [] && FramesFit(frames, |g.nodes|) && Top(frames).Next() < Size(Top(frames).container)
    requires NextItem(frames, g, config).DoneItem?
    ensures
      var item := NextItem(frames, g, config);
      && FramesFit(Waiting(frames, item.edge), |item.graph.nodes|)
      && Resume(Waiting(frames, item.edge), item.graph, config) == Resume(frames, g, config)
  {
    var item := NextItem(frames, g, config);
    WaitingFits(frames, item.edge, |g.nodes|, |item.graph.nodes|);
  }

  /** Pushing a frame for a container item defers exactly the decoding of its items. */
  lemma ContainerOpened(frames: seq<Frame>, g: Graph, keyed: Decoded, child: Decoded, config: Config)
    requires frames != [] && FramesFit(frames, |g.nodes|) && Top(frames).Next() < Size(Top(frames).container)
    requires
      var top := Top(frames);
      && |top.pending| < config.maxContainerEntries
      && ItemReadable(top.container, top.Next())
      && Item(top.container, top.Next()).Container()
      && top.depth + 1 <= config.maxDepth
      && keyed == Keyed(top.container, top.Next(), g, config)
      && keyed.Done?
      && child == AppendNode(keyed.graph, Node(ContainerKind(Item(top.container, top.Next())), 0, 0), config)
      && child.Done?
    ensures
      var top := Top(frames);
      var x := Item(top.container, top.Next());
      var edge := ItemEdge(top.container, top.Next(), keyed.node, child.node);
      var pushed := Waiting(frames, edge) + [Frame(x, 0, child.node, top.depth + 1, false, [])];
      && FramesFit(pushed, |child.graph.nodes|)
      && Resume(pushed, child.graph, config) == Resume(frames, g, config)
  {
    var top := Top(frames);
    var x := Item(top.container, top.Next());
    var edge := ItemEdge(top.container, top.Next(), keyed.node, child.node);
    var waiting := Waiting(frames, edge);
    WaitingFits(frames, edge, |g.nodes|, |child.graph.nodes|);
    var pushed := waiting + [Frame(x, 0, child.node, top.depth + 1, false, [])];
    assert pushed[..|pushed| - 1] == waiting;
    var items := DecodeItems(x, 0, top.depth + 1, [], child.node, child.graph, config);
    assert Decode(x, top.depth + 1, keyed.graph, config) == items;
    if items.Done? {
      assert NextItem(frames, g, config) == DoneItem(items.graph, edge);
      ItemFinished(frames, g, config);
    } else {
      ItemStops(frames, g, config);
    }
  }

  lemma {:induction false} WorkShrinks(frames: seq<Frame>, edge: Edge, child: Frame)
    requires frames != []
    requires forall k :: 0 <= k < |frames| ==> frames[k].Next() <= Size(frames[k].container)
    requires Top(frames).Next() < Size(Top(frames).container)
    requires ItemReadable(Top(frames).container, Top(frames).Next())
    requires child.container == Item(Top(frames).container, Top(frames).Next()) && child.Next() == 0
    ensures
      var waiting := Waiting(frames, edge);
      && Work(waiting) < Work(frames)
      && (child.container.Container() ==> Work(waiting + [child]) < Work(frames))
  {
    var waiting, top, rest := Waiting(frames, edge), Top(frames), frames[..|frames| - 1];
    assert waiting[..|frames| - 1] == rest;
    assert Work(waiting) == 1 + WeightFrom(top.container, top.Next() + 1) + Work(rest);
    assert Work(frames) == 1 + WeightFrom(top.container, top.Next()) + Work(rest);
    assert (waiting + [child])[..|frames|] == waiting;
    if child.container.Container() {
      assert Work(waiting + [child]) == 1 + WeightFrom(child.container, 0) + Work(waiting);
    }
  }

  class Materializer {
    const document: Value
    const config: Config
    var frames: seq<Frame>
    var consumed: bool

    constructor (document: Value, config: Config)
      requires config.Valid()
      ensures this.document == document && this.config == config
      ensures frames == [] && !consumed
    {
      this.document := document;
      this.config := config;
      frames := [];
      consumed := false;
    }

    /** The depth of every frame is its place in the stack, so the reserved space always suffices. */
    ghost predicate Stacked()
      reads this
    {
      && |frames| <= config.maxDepth
      && forall k :: 0 <= k < |frames| ==>
           frames[k].depth == k + 1 && |frames[k].pending| <= config.maxContainerEntries
    }

    // Opening `v`: a scalar is finished, a container only gets its node and a frame.
    ghost function Opening(v: Value, depth: nat, g: Graph): Decoded {
      if depth > config.maxDepth then Stopped(MaxDepthExceeded)
      else if v.Container() then AppendNode(g, Node(ContainerKind(v), 0, 0), config)
      else DecodeScalar(v, g, config)
    }

    lemma OpeningBeginsDecode(v: Value, depth: nat, g: Graph)
      ensures !v.Container() || Opening(v, depth, g).Stopped? ==>
                Opening(v, depth, g) == Decode(v, depth, g, config)
    {
    }

    method OpenValue(result: DecodeResult, v: Value, depth: nat, cancellation: Cancellation)
      returns (status: StatusCode, node: nat)
      modifies this`frames, result`nodes, result`copiedBytes, cancellation
      ensures old(cancellation.checks) <= cancellation.checks
      ensures status != Cancelled <==> cancellation.QuietSince(old(cancellation.checks))
      ensures status != Cancelled ==> result.Follows(status, node, Opening(v, depth, old(result.View())))
      ensures status == OK ==> depth <= config.maxDepth
      ensures status == OK ==>
                frames == if v.Container() then old(frames) + [Frame(v, 0, node, depth, false, [])] else old(frames)
    {
      node := 0;
      if depth > config.maxDepth {
        return MaxDepthExceeded, node;
      }
      if v.Container() {
        status, node := AppendNodeTo(result, Node(ContainerKind(v), 0, 0), config);
        if status == OK {
          frames := frames + [Frame(v, 0, node, depth, false, [])];
        }
      } else {
        status, node := OpenScalar(v, result, config, cancellation);
      }
    }

    // One item of the innermost container: its key is copied and its value opened.
    method OpenItem(result: DecodeResult, cancellation: Cancellation) returns (status: StatusCode)
      requires frames != [] && FramesFit(frames, |result.nodes|) && Stacked()
      requires
        var top := frames[|frames| - 1];
        !top.awaitingChild && top.position < Size(top.container)
      modifies this`frames, result`nodes, result`copiedBytes, cancellation
      ensures old(cancellation.checks) <= cancellation.checks
      ensures status != Cancelled <==> cancellation.QuietSince(old(cancellation.checks))
      ensures status == OK ==>
                && FramesFit(frames, |result.nodes|) && Stacked()
                && Work(frames) < Work(old(frames))
                && Resume(frames, result.View(), config) == Resume(old(frames), old(result.View()), config)
      ensures status != OK && status != Cancelled ==>
                Resume(old(frames), old(result.View()), config) == Stopped(status)
    {
      hide Resume, DecodeItems, Decode, DecodeScalar, Work, WeightFrom;
      var parent := |frames| - 1;
      var top := frames[parent];
      ghost var before, start := frames, result.View();
      if |top.pending| >= config.maxContainerEntries {
        ItemStops(before, start, config);
        return MaxContainerEntriesExceeded;
      }
      if !ItemReadable(top.container, top.position) {
        ItemStops(before, start, config);
        return DecodeStatus(top.container.fields[top.position].error);
      }
      var keyOffset;
      status, keyOffset := CopyKey(top.container, top.position, result, config, cancellation);
      if status != OK {
        if status != Cancelled {
          ItemStops(before, start, config);
        }
        return;
      }
      status := OpenChild(result, keyOffset, cancellation, start);
    }

    // The key of the next item is copied: its value is opened and its edge becomes pending.
    method OpenChild(result: DecodeResult, keyOffset: nat, cancellation: Cancellation, ghost start: Graph)
      returns (status: StatusCode)
      requires frames != [] && FramesFit(frames, |start.nodes|) && Stacked()
      requires
        var top := frames[|frames| - 1];
        && !top.awaitingChild && top.position < Size(top.container)
        && |top.pending| < config.maxContainerEntries && ItemReadable(top.container, top.position)
        && Keyed(top.container, top.position, start, config) == Done(result.View(), keyOffset)
      modifies this`frames, result`nodes, result`copiedBytes, cancellation
      ensures old(cancellation.checks) <= cancellation.checks
      ensures status != Cancelled <==> cancellation.QuietSince(old(cancellation.checks))
      ensures status == OK ==>
                && FramesFit(frames, |result.nodes|) && Stacked()
                && Work(frames) < Work(old(frames))
                && Resume(frames, result.View(), config) == Resume(old(frames), start, config)
      ensures status != OK && status != Cancelled ==>
                Resume(old(frames), start, config) == Stopped(status)
    {
      hide Resume, DecodeItems, Decode, DecodeScalar, Work, WeightFrom, CopyBytes;
      var parent := |frames| - 1;
      var top := frames[parent];
      ghost var before := frames;
      ghost var keyed := Done(result.View(), keyOffset);
      var child := Item(top.container, top.position);
      OpeningBeginsDecode(child, top.depth + 1, keyed.graph);
      frames := frames[parent := top.(awaitingChild := true)];
      var node;
      status, node := OpenValue(result, child, top.depth + 1, cancellation);
      if status != OK {
        if status != Cancelled {
          ItemStops(before, start, config);
        }
        return;
      }
      var edge := ItemEdge(top.container, top.position, keyOffset, node);
      frames := frames[parent := frames[parent].(pending := frames[parent].pending + [edge])];
      ChildOpened(before, start, keyed, Done(result.View(), node));
      assert frames[parent] == Top(Waiting(before, edge));
      assert frames == Opened(before, edge, child, node);
    }

    // The stack after opening an item: the parent waits, and a container has a frame of its own.
    ghost function Opened(before: seq<Frame>, edge: Edge, child: Value, node: nat): seq<Frame>
      requires before != []
    {
      Waiting(before, edge)
      + if child.Container() then [Frame(child, 0, node, Top(before).depth + 1, false, [])] else []
    }

    lemma ChildOpened(before: seq<Frame>, start: Graph, keyed: Decoded, opening: Decoded)
      requires before != [] && FramesFit(before, |start.nodes|)
      requires
        var top := Top(before);
        && top.Next() < Size(top.container)
        && |top.pending| < config.maxContainerEntries && ItemReadable(top.container, top.Next())
        && top.depth + 1 <= config.maxDepth
        && keyed == Keyed(top.container, top.Next(), start, config) && keyed.Done?
        && opening == Opening(Item(top.container, top.Next()), top.depth + 1, keyed.graph) && opening.Done?
      ensures
        var top := Top(before);
        var child := Item(top.container, top.Next());
        var edge := ItemEdge(top.container, top.Next(), keyed.node, opening.node);
        var after := Opened(before, edge, child, opening.node);
        && FramesFit(after, |opening.graph.nodes|) && Work(after) < Work(before)
        && Resume(after, opening.graph, config) == Resume(before, start, config)
    {
      hide Resume, DecodeItems, Work, WeightFrom, CopyBytes;
      var top := Top(before);
      var child := Item(top.container, top.Next());
      var edge := ItemEdge(top.container, top.Next(), keyed.node, opening.node);
      WorkShrinks(before, edge, Frame(child, 0, opening.node, top.depth + 1, false, []));
      if child.Container() {
        ContainerOpened(before, start, keyed, opening, config);
      } else {
        OpeningBeginsDecode(child, top.depth + 1, keyed.graph);
        assert NextItem(before, start, config) == DoneItem(opening.graph, edge);
        ItemFinished(before, start, config);
        assert Opened(before, edge, child, opening.node) == Waiting(before, edge);
      }
    }

    /** Decodes the whole document: the loop computes exactly the recursive decoding. */
    method Traverse(result: DecodeResult, cancellation: Cancellation) returns (status: StatusCode)
      requires config.Valid() && frames == [] && result.View() == EMPTY_GRAPH
      modifies this`frames, result, cancellation
      ensures old(cancellation.checks) <= cancellation.checks
      ensures status != Cancelled <==> cancellation.QuietSince(old(cancellation.checks))
      ensures status != Cancelled ==> result.Follows(status, 0, DecodeDocument(document, config))
      ensures status == OK ==> result.rootNode == 0
    {
      hide Resume, Decode, DecodeScalar, Work;
      var root;
      OpeningBeginsDecode(document, 1, EMPTY_GRAPH);
      status, root := OpenValue(result, document, 1, cancellation);
      if status != OK {
        return;
      }
      result.rootNode := root;
      OpenedDocument(result.View());
      while frames != []
        invariant old(cancellation.checks) <= cancellation.checks && cancellation.QuietSince(old(cancellation.checks))
        invariant FramesFit(frames, |result.nodes|) && Stacked()
        invariant Resume(frames, result.View(), config) == DecodeDocument(document, config)
        invariant result.rootNode == 0
        decreases Work(frames)
      {
        var cancelled := cancellation.Requested();
        if cancelled {
          return Cancelled;
        }
        status := Iterate(result, cancellation);
        if status != OK {
          return;
        }
      }
      ResumeNothing(result.View(), config);
      status := OK;
    }

    // One iteration: leave the child behind, then close the innermost container or open its next item.
    method Iterate(result: DecodeResult, cancellation: Cancellation) returns (status: StatusCode)
      requires frames != [] && FramesFit(frames, |result.nodes|) && Stacked()
      modifies this`frames, result`nodes, result`edges, result`copiedBytes, cancellation
      ensures old(cancellation.checks) <= cancellation.checks
      ensures status != Cancelled <==> cancellation.QuietSince(old(cancellation.checks))
      ensures status == OK ==>
                && FramesFit(frames, |result.nodes|) && Stacked()
                && Work(frames) < Work(old(frames))
                && Resume(frames, result.View(), config) == Resume(old(frames), old(result.View()), config)
      ensures status != OK && status != Cancelled ==>
                Resume(old(frames), old(result.View()), config) == Stopped(status)
    {
      hide Resume, DecodeItems, Work;
      var last := |frames| - 1;
      var top := frames[last];
      if top.awaitingChild {
        AdvanceChangesNothing(frames, result.View(), config);
        frames := frames[last := top.(position := top.position + 1, awaitingChild := false)];
      }
      if frames[last].position == Size(frames[last].container) {
        status := FinishTop(result);
      } else {
        status := OpenItem(result, cancellation);
      }
    }

    // Lays out the edges of the innermost container, whose items are all decoded, and leaves it.
    method FinishTop(result: DecodeResult) returns (status: StatusCode)
      requires frames != [] && FramesFit(frames, |result.nodes|) && Stacked()
      requires
        var top := frames[|frames| - 1];
        !top.awaitingChild && top.position == Size(top.container)
      modifies this`frames, result`nodes, result`edges
      ensures status != Cancelled
      ensures status == OK ==>
                && FramesFit(frames, |result.nodes|) && Stacked()
                && Work(frames) < Work(old(frames))
                && Resume(frames, result.View(), config) == Resume(old(frames), old(result.View()), config)
      ensures status != OK ==> Resume(old(frames), old(result.View()), config) == Stopped(status)
    {
      var last := |frames| - 1;
      status := FinalizeFrame(result, frames[last], config);
      if status == OK {
        frames := frames[..last];
      }
    }

    lemma OpenedDocument(g: Graph)
      requires config.Valid()
      requires
        var d := Opening(document, 1, EMPTY_GRAPH);
        d.Done? && g == d.graph
      requires frames == if document.Container() then [Frame(document, 0, 0, 1, false, [])] else []
      ensures FramesFit(frames, |g.nodes|) && Stacked()
      ensures Resume(frames, g, config) == DecodeDocument(document, config)
    {
      if document.Container() {
        assert frames[..0] == [];
      }
    }

    /** A materializer decodes its document once; only a complete graph is ever published. */
    method Execute(cancellation: Cancellation) returns (status: StatusCode, result: DecodeResult?)
      requires config.Valid() && frames == []
      modifies this, cancellation
      ensures frames == [] && (status == OK <==> result != null)
      ensures result != null ==> fresh(result)
      ensures status == Cancelled <==> !cancellation.QuietSince(old(cancellation.checks))
      ensures status != Cancelled ==> consumed
      ensures status != Cancelled && old(consumed) ==> status == CursorConsumed
      ensures status != Cancelled && !old(consumed) ==>
                match DecodeDocument(document, config)
                case Stopped(code) => status == code
                case Done(graph, _) => result != null && result.View() == graph && result.rootNode == 0
    {
      var cancelled := cancellation.Requested();
      if cancelled {
        return Cancelled, null;
      }
      if consumed {
        return CursorConsumed, null;
      }
      consumed := true;
      var built := new DecodeResult();
      status := Traverse(built, cancellation);
      frames := [];
      result := if status == OK then built else null;
    }
  }

  lemma ResumeNothing(g: Graph, config: Config)
    ensures Resume([], g, config) == Done(g, 0)
  {
  }

  lemma AdvanceChangesNothing(frames: seq<Frame>, g: Graph, config: Config)
    requires frames != [] && Top(frames).awaitingChild && FramesFit(frames, |g.nodes|)
    ensures
      var top := Top(frames);
      var advanced := frames[|frames| - 1 := top.(position := top.position + 1, awaitingChild := false)];
      && FramesFit(advanced, |g.nodes|)
      && Work(advanced) == Work(frames)
      && Resume(advanced, g, config) == Resume(frames, g, config)
  {
    var top := Top(frames);
    var advanced := frames[|frames| - 1 := top.(position := top.position + 1, awaitingChild := false)];
    assert advanced[..|frames| - 1] == frames[..|frames| - 1];
  }
}
