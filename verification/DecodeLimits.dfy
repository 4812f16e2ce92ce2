/** Decoding succeeds exactly within the four configured limits. */
module DecodeLimits {
  import opened Arithmetic
  import opened Json
  import opened DecodeSpec

  // ---- Measures of a document

  /** Every value reads, and every number fits. */
  predicate Clean(v: Value)
    decreases v, 1, 0
  {
    if v.Container() then CleanFrom(v, 0) else v.String? || ScalarKind(v).Some?
  }

  predicate CleanFrom(v: Value, i: nat)
    requires i <= Size(v)
    decreases v, 0, Size(v) - i
  {
    i == Size(v) || (ItemReadable(v, i) && Clean(Item(v, i)) && CleanFrom(v, i + 1))
  }

  /** Nesting depth, scalars counted as one level. */
  function Height(v: Value): nat
    decreases v, 1, 0
  {
    if v.Container() then 1 + HeightFrom(v, 0) else 1
  }

  function HeightFrom(v: Value, i: nat): nat
    requires i <= Size(v)
    decreases v, 0, Size(v) - i
  {
    if i == Size(v) then 0
    else Max(if ItemReadable(v, i) then Height(Item(v, i)) else 0, HeightFrom(v, i + 1))
  }

  /** 40 bytes a node, 32 bytes an edge, and every byte of every string and key. */
  function Cost(v: Value): nat
    decreases v, 1, 0
  {
    NODE_BYTES + if v.Container() then CostFrom(v, 0) else if v.String? then |v.text| else 0
  }

  function CostFrom(v: Value, i: nat): nat
    requires i <= Size(v)
    decreases v, 0, Size(v) - i
  {
    if i == Size(v) then 0
    else
      EDGE_BYTES + (if ItemReadable(v, i) then |ItemKey(v, i)| + Cost(Item(v, i)) else 0) + CostFrom(v, i + 1)
  }

  predicate EntriesFit(v: Value, limit: nat)
    decreases v, 1, 0
  {
    v.Container() ==> Size(v) <= limit && EntriesFitFrom(v, 0, limit)
  }

  predicate EntriesFitFrom(v: Value, i: nat, limit: nat)
    requires i <= Size(v)
    decreases v, 0, Size(v) - i
  {
    i == Size(v) || ((ItemReadable(v, i) ==> EntriesFit(Item(v, i), limit)) && EntriesFitFrom(v, i + 1, limit))
  }

  predicate StringsFit(v: Value, limit: nat)
    decreases v, 1, 0
  {
    if v.Container() then StringsFitFrom(v, 0, limit) else v.String? ==> |v.text| <= limit
  }

  predicate StringsFitFrom(v: Value, i: nat, limit: nat)
    requires i <= Size(v)
    decreases v, 0, Size(v) - i
  {
    i == Size(v) ||
    ((ItemReadable(v, i) ==> |ItemKey(v, i)| <= limit && StringsFit(Item(v, i), limit))
     && StringsFitFrom(v, i + 1, limit))
  }

  // ---- Success within the limits, and what it costs

  ghost predicate Fits(v: Value, depth: nat, retained: nat, config: Config) {
    && Clean(v)
    && depth + Height(v) <= config.maxDepth + 1
    && EntriesFit(v, config.maxContainerEntries)
    && StringsFit(v, config.maxStringBytes)
    && retained + Cost(v) <= config.maxOutputBytes
  }

  ghost predicate ItemsFit(v: Value, i: nat, depth: nat, retained: nat, config: Config)
    requires i <= Size(v)
  {
    && CleanFrom(v, i)
    && depth + HeightFrom(v, i) <= config.maxDepth
    && Size(v) <= config.maxContainerEntries && EntriesFitFrom(v, i, config.maxContainerEntries)
    && StringsFitFrom(v, i, config.maxStringBytes)
    && retained + i * EDGE_BYTES + CostFrom(v, i) <= config.maxOutputBytes
  }

  lemma {:induction false} DecodeFits(v: Value, depth: nat, g: Graph, config: Config)
    requires Retained(g) <= config.maxOutputBytes
    ensures Decode(v, depth, g, config).Done? <==> Fits(v, depth, Retained(g), config)
    ensures Decode(v, depth, g, config).Done? ==>
              Retained(Decode(v, depth, g, config).graph) == Retained(g) + Cost(v)
    decreases v, 1, 0
  {
    if v.Container() && depth <= config.maxDepth {
      var entered := AppendNode(g, Node(ContainerKind(v), 0, 0), config);
      if entered.Done? {
        DecodeItemsFit(v, 0, depth, [], entered.node, entered.graph, config);
      }
    }
  }

  lemma {:induction false} DecodeItemsFit(v: Value, i: nat, depth: nat, pending: seq<Edge>, node: nat, g: Graph,
                                          config: Config)
    requires v.Container() && i <= Size(v) && node < |g.nodes| && |pending| == i <= config.maxContainerEntries
    requires depth <= config.maxDepth && Retained(g) <= config.maxOutputBytes
    ensures
      var r := DecodeItems(v, i, depth, pending, node, g, config);
      && (r.Done? <==> ItemsFit(v, i, depth, Retained(g), config))
      && (r.Done? ==> Retained(r.graph) == Retained(g) + i * EDGE_BYTES + CostFrom(v, i))
    decreases v, 0, Size(v) - i
  {
    if i < Size(v) {
      var item := DecodeItem(v, i, depth, i, g, config);
      DecodeItemFits(v, i, depth, g, config);
      if item.DoneItem? {
        DecodeItemsFit(v, i + 1, depth, pending + [item.edge], node, item.graph, config);
      }
    }
  }

  lemma {:induction false} DecodeItemFits(v: Value, i: nat, depth: nat, g: Graph, config: Config)
    requires v.Container() && i < Size(v) && Retained(g) <= config.maxOutputBytes
    ensures
      var r := DecodeItem(v, i, depth, i, g, config);
      && (r.DoneItem? <==>
            && i < config.maxContainerEntries && ItemReadable(v, i)
            && (v.Object? ==> |ItemKey(v, i)| <= config.maxStringBytes)
            && Fits(Item(v, i), depth + 1, Retained(g) + |ItemKey(v, i)|, config))
      && (r.DoneItem? ==> Retained(r.graph) == Retained(g) + |ItemKey(v, i)| + Cost(Item(v, i)))
    decreases v, 0, 0
  {
    if i < config.maxContainerEntries && ItemReadable(v, i) {
      var keyed := if v.Object? then CopyBytes(g, ItemKey(v, i), config) else Done(g, RANGE_UNAVAILABLE);
      if keyed.Done? {
        DecodeFits(Item(v, i), depth + 1, keyed.graph, config);
      }
    }
  }

  /** A document decodes if and only if it reads cleanly and stays within every limit. */
  lemma DecodeIffWithinLimits(v: Value, config: Config)
    requires config.Valid()
    ensures DecodeDocument(v, config).Done? <==>
              && Clean(v)
              && Height(v) <= config.maxDepth
              && EntriesFit(v, config.maxContainerEntries)
              && StringsFit(v, config.maxStringBytes)
              && Cost(v) <= config.maxOutputBytes
    ensures DecodeDocument(v, config).Done? ==>
              var g := DecodeDocument(v, config).graph;
              40 * |g.nodes| + 32 * |g.edges| + |g.bytes| == Cost(v) <= config.maxOutputBytes
  {
    DecodeFits(v, 1, EMPTY_GRAPH, config);
  }
}
