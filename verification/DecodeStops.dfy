/** Why a decoding stops: a limit that the document exceeds, or its first flaw. */
module DecodeStops {
  import opened Arithmetic
  import opened Json
  import opened DocumentOrder
  import opened DecodeSpec
  import opened DecodeLimits

  // ---- Flaws

  /** What decoding cannot take at one place, however generous the limits. */
  ghost function Flaw(place: Place, depth: nat): Option<StatusCode> {
    match place
    case OfBadField(e) => Some(DecodeStatus(e))
    case OfValue(x) =>
      match x
      case Number(_, Rejected(e)) => Some(DecodeStatus(e))
      case Number(_, BigInteger) => Some(NumberOutOfRange)
      case Number(_, Floating(d)) => if d.finite then None else Some(NumberOutOfRange)
      case Broken(e) => Some(DecodeStatus(e))
      case Unreadable(e) => Some(DecodeStatus(e))
      case _ => None
  }

  lemma {:induction false} CleanIsFlawless(v: Value, depth: nat)
    ensures Clean(v) <==> First(v, depth, Flaw).None?
    decreases v, 1, 0
  {
    if v.Container() {
      CleanItemsAreFlawless(v, 0, depth);
    }
  }

  lemma {:induction false} CleanItemsAreFlawless(v: Value, i: nat, depth: nat)
    requires v.Container() && i <= Size(v)
    ensures CleanFrom(v, i) <==> FirstFrom(v, i, depth, Flaw).None?
    decreases v, 0, Size(v) - i
  {
    if i < Size(v) {
      if ItemReadable(v, i) {
        CleanIsFlawless(Item(v, i), depth + 1);
      }
      CleanItemsAreFlawless(v, i + 1, depth);
    }
  }

  // ---- Blame

  /** The code names a limit that the value exceeds, or its first flaw. */
  ghost predicate Blamed(v: Value, depth: nat, retained: nat, code: StatusCode, config: Config) {
    || (code == MaxDepthExceeded && depth + Height(v) > config.maxDepth + 1)
    || (code == MaxContainerEntriesExceeded && !EntriesFit(v, config.maxContainerEntries))
    || (code == MaxStringBytesExceeded && !StringsFit(v, config.maxStringBytes))
    || (code == MaxOutputBytesExceeded && retained + Cost(v) > config.maxOutputBytes)
    || First(v, depth, Flaw) == Some(code)
  }

  ghost predicate ItemsBlamed(v: Value, i: nat, depth: nat, retained: nat, code: StatusCode, config: Config)
    requires i <= Size(v)
  {
    || (code == MaxDepthExceeded && depth + HeightFrom(v, i) > config.maxDepth)
    || (code == MaxContainerEntriesExceeded &&
        !(Size(v) <= config.maxContainerEntries && EntriesFitFrom(v, i, config.maxContainerEntries)))
    || (code == MaxStringBytesExceeded && !StringsFitFrom(v, i, config.maxStringBytes))
    || (code == MaxOutputBytesExceeded && retained + i * EDGE_BYTES + CostFrom(v, i) > config.maxOutputBytes)
    || FirstFrom(v, i, depth, Flaw) == Some(code)
  }

  lemma {:induction false} DecodeBlames(v: Value, depth: nat, g: Graph, config: Config)
    requires Retained(g) <= config.maxOutputBytes
    ensures
      var r := Decode(v, depth, g, config);
      r.Stopped? ==> Blamed(v, depth, Retained(g), r.code, config)
    decreases v, 1, 0
  {
    if depth > config.maxDepth {
      HeightIsPositive(v);
    } else if v.Container() {
      var entered := AppendNode(g, Node(ContainerKind(v), 0, 0), config);
      if entered.Done? {
        DecodeItemsBlame(v, 0, depth, [], entered.node, entered.graph, config);
      }
    }
  }

  lemma HeightIsPositive(v: Value)
    ensures Height(v) > 0
  {
  }

  lemma {:induction false} DecodeItemsBlame(v: Value, i: nat, depth: nat, pending: seq<Edge>, node: nat, g: Graph,
                                            config: Config)
    requires v.Container() && i <= Size(v) && node < |g.nodes| && |pending| == i <= config.maxContainerEntries
    requires depth <= config.maxDepth && Retained(g) <= config.maxOutputBytes
    ensures
      var r := DecodeItems(v, i, depth, pending, node, g, config);
      r.Stopped? ==> ItemsBlamed(v, i, depth, Retained(g), r.code, config)
    decreases v, 0, Size(v) - i
  {
    if i < Size(v) {
      var item := DecodeItem(v, i, depth, i, g, config);
      DecodeItemBlames(v, i, depth, g, config);
      if item.DoneItem? {
        DecodeItemFits(v, i, depth, g, config);
        CleanIsFlawless(Item(v, i), depth + 1);
        DecodeItemsBlame(v, i + 1, depth, pending + [item.edge], node, item.graph, config);
      }
    }
  }

  lemma {:induction false} DecodeItemBlames(v: Value, i: nat, depth: nat, g: Graph, config: Config)
    requires v.Container() && i < Size(v) && Retained(g) <= config.maxOutputBytes
    requires depth <= config.maxDepth
    ensures
      var r := DecodeItem(v, i, depth, i, g, config);
      r.StoppedItem? ==> ItemsBlamed(v, i, depth, Retained(g), r.code, config)
    decreases v, 0, 0
  {
    if i < config.maxContainerEntries && ItemReadable(v, i) {
      var keyed := if v.Object? then CopyBytes(g, ItemKey(v, i), config) else Done(g, RANGE_UNAVAILABLE);
      if keyed.Done? {
        DecodeBlames(Item(v, i), depth + 1, keyed.graph, config);
      }
    }
  }

  // ---- The whole document

  ghost predicate DepthFits(v: Value, config: Config) {
    Height(v) <= config.maxDepth
  }

  ghost predicate OutputFits(v: Value, config: Config) {
    Cost(v) <= config.maxOutputBytes
  }

  /** A stopped decoding names a limit that the document exceeds, or the code of its first flaw. */
  lemma StoppedForACause(v: Value, config: Config)
    requires config.Valid() && DecodeDocument(v, config).Stopped?
    ensures
      var code := DecodeDocument(v, config).code;
      || (code == MaxDepthExceeded && !DepthFits(v, config))
      || (code == MaxContainerEntriesExceeded && !EntriesFit(v, config.maxContainerEntries))
      || (code == MaxStringBytesExceeded && !StringsFit(v, config.maxStringBytes))
      || (code == MaxOutputBytesExceeded && !OutputFits(v, config))
      || exists p :: FoundFirst(v, p, 1, Flaw, code)
  {
    DecodeBlames(v, 1, EMPTY_GRAPH, config);
    FirstIsFirst(v, 1, Flaw);
  }

  /** One limit exceeded by a clean document is the one that is named, and a flaw of a document within
    * all limits is told by its own code at its first position. */
  lemma SoleCauseIsNamed(v: Value, config: Config)
    requires config.Valid()
    ensures
      var entries := EntriesFit(v, config.maxContainerEntries);
      var strings := StringsFit(v, config.maxStringBytes);
      var depth, output := DepthFits(v, config), OutputFits(v, config);
      var r := DecodeDocument(v, config);
      && (Clean(v) && !depth && entries && strings && output ==> r == Stopped(MaxDepthExceeded))
      && (Clean(v) && depth && !entries && strings && output ==> r == Stopped(MaxContainerEntriesExceeded))
      && (Clean(v) && depth && entries && !strings && output ==> r == Stopped(MaxStringBytesExceeded))
      && (Clean(v) && depth && entries && strings && !output ==> r == Stopped(MaxOutputBytesExceeded))
      && (!Clean(v) && depth && entries && strings && output ==>
            r.Stopped? && exists p :: FoundFirst(v, p, 1, Flaw, r.code))
  {
    DecodeIffWithinLimits(v, config);
    CleanIsFlawless(v, 1);
    FirstIsFirst(v, 1, Flaw);
    DecodeBlames(v, 1, EMPTY_GRAPH, config);
    hide Clean, EntriesFit, StringsFit, Height, Cost, Decode, First, FoundFirst;
  }
}
