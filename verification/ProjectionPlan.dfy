/** Compiling path descriptors into one prefix-sharing trie, edge vectors kept sorted in place. */
module ProjectionPlan {
  import opened Arithmetic
  import opened Json
  import opened ProjectionSpec
  import opened ProjectionTrie

  const SEGMENT_OBJECT_KEY: nat := 1

  const SEGMENT_ARRAY_INDEX: nat := 2

  const UINT32_MAX: nat := 0xFFFF_FFFF

  datatype Entry = Entry(outputSlot: nat, reserved: nat, segmentOffset: nat, segmentCount: nat)

  datatype RawSegment = RawSegment(tag: nat, reserved: nat, keyOffset: nat, keyLength: nat, arrayIndex: nat)

  // ---- Accepted descriptors

  predicate EntryInRange(e: Entry, entryCount: nat, segmentCount: nat) {
    && e.reserved == 0 && e.outputSlot < entryCount
    && e.segmentCount != 0
    && e.segmentOffset + e.segmentCount <= segmentCount
  }

  predicate SegmentInRange(s: RawSegment, keyBytes: Bytes) {
    && s.reserved == 0
    && (s.tag == SEGMENT_OBJECT_KEY || s.tag == SEGMENT_ARRAY_INDEX)
    && (s.tag == SEGMENT_OBJECT_KEY ==> s.arrayIndex == 0 && s.keyOffset + s.keyLength <= |keyBytes|)
    && (s.tag == SEGMENT_ARRAY_INDEX ==> s.keyOffset == 0 && s.keyLength == 0)
  }

  predicate Covers(e: Entry, segment: nat) {
    e.segmentOffset <= segment < e.segmentOffset + e.segmentCount
  }

  predicate Referenced(entries: seq<Entry>, segment: nat) {
    exists i :: 0 <= i < |entries| && Covers(entries[i], segment)
  }

  /** Slots are distinct and in range, every entry names a non-empty segment range, every segment
    * is well formed and belongs to some entry. */
  ghost predicate Accepted(entries: seq<Entry>, segments: seq<RawSegment>, keyBytes: Bytes) {
    && 0 < |entries| <= UINT32_MAX && 0 < |segments| <= UINT32_MAX
    && (forall i :: 0 <= i < |entries| ==> EntryInRange(entries[i], |entries|, |segments|))
    && (forall i, j :: 0 <= i < j < |entries| ==> entries[i].outputSlot != entries[j].outputSlot)
    && (forall k :: 0 <= k < |segments| ==> SegmentInRange(segments[k], keyBytes))
    && (forall k :: 0 <= k < |segments| ==> Referenced(entries, k))
  }

  method DescriptorSetIsValid(entries: seq<Entry>, segments: seq<RawSegment>, keyBytes: Bytes)
    returns (valid: bool)
    ensures valid <==> Accepted(entries, segments, keyBytes)
  {
    if |entries| == 0 || |segments| == 0 || |entries| > UINT32_MAX || |segments| > UINT32_MAX {
      return false;
    }
    for i := 0 to |entries|
      invariant forall j :: 0 <= j < i ==> EntryInRange(entries[j], |entries|, |segments|)
      invariant forall j, k :: 0 <= j < k < i ==> entries[j].outputSlot != entries[k].outputSlot
    {
      var e := entries[i];
      if e.reserved != 0 || e.outputSlot >= |entries| || e.segmentCount == 0
         || e.segmentOffset > |segments| || e.segmentCount > |segments| - e.segmentOffset {
        assert !EntryInRange(entries[i], |entries|, |segments|);
        return false;
      }
      for previous := 0 to i
        invariant forall j :: 0 <= j < previous ==> entries[j].outputSlot != e.outputSlot
      {
        if entries[previous].outputSlot == e.outputSlot {
          return false;
        }
      }
    }
    for k := 0 to |segments|
      invariant forall j :: 0 <= j < k ==> SegmentInRange(segments[j], keyBytes)
      invariant forall j :: 0 <= j < k ==> Referenced(entries, j)
    {
      var s := segments[k];
      assert SegmentInRange(segments[k], keyBytes) == SegmentInRange(s, keyBytes);
      if s.reserved != 0 {
        return false;
      }
      if s.tag == SEGMENT_OBJECT_KEY {
        if s.arrayIndex != 0 || s.keyOffset > |keyBytes| || s.keyLength > |keyBytes| - s.keyOffset {
          return false;
        }
      } else if s.tag == SEGMENT_ARRAY_INDEX {
        if s.keyOffset != 0 || s.keyLength != 0 {
          return false;
        }
      } else {
        return false;
      }
      var referenced := false;
      for i := 0 to |entries|
        invariant !referenced
        invariant forall j :: 0 <= j < i ==> !Covers(entries[j], k)
      {
        if k >= entries[i].segmentOffset && k - entries[i].segmentOffset < entries[i].segmentCount {
          assert Covers(entries[i], k);
          referenced := true;
          break;
        }
      }
      if !referenced {
        assert !Referenced(entries, k);
        return false;
      }
    }
    valid := true;
  }

  // ---- The path of an entry

  function SegmentOf(s: RawSegment, keyBytes: Bytes): Segment
    requires SegmentInRange(s, keyBytes)
  {
    if s.tag == SEGMENT_OBJECT_KEY then Key(keyBytes[s.keyOffset..s.keyOffset + s.keyLength])
    else Index(s.arrayIndex)
  }

  function PathOf(e: Entry, segments: seq<RawSegment>, keyBytes: Bytes): (path: Path)
    requires EntryInRange(e, e.outputSlot + 1, |segments|)
    requires forall k :: 0 <= k < |segments| ==> SegmentInRange(segments[k], keyBytes)
    ensures |path| == e.segmentCount
  {
    seq(e.segmentCount, k requires 0 <= k < e.segmentCount =>
      SegmentOf(segments[e.segmentOffset + k], keyBytes))
  }

  // ---- The trie as a vector of nodes whose identifiers are their positions

  datatype FlatObjectEdge = FlatObjectEdge(key: Bytes, child: nat, executionId: nat)

  datatype FlatArrayEdge = FlatArrayEdge(index: nat, child: nat)

  datatype Node = Node(objectEdges: seq<FlatObjectEdge>, arrayEdges: seq<FlatArrayEdge>,
                       terminals: seq<nat>, subtreeSlots: nat, first: nat)

  const EMPTY_NODE := Node([], [], [], 0, SLOT_UNAVAILABLE)

  datatype PlanState = PlanState(nodes: seq<Node>, objectEdges: nat, arrayEdges: nat, terminals: nat,
                                 keyBytes: nat, maximumDepth: nat)

  function InsertAt<T>(s: seq<T>, i: nat, x: T): seq<T>
    requires i <= |s|
  {
    s[..i] + [x] + s[i..]
  }

  ghost function KeyPosition(edges: seq<FlatObjectEdge>, key: Bytes): (i: nat)
    ensures i <= |edges|
    ensures forall j :: 0 <= j < i ==> Less(edges[j].key, key)
    ensures i < |edges| ==> !Less(edges[i].key, key)
  {
    if edges == [] || !Less(edges[0].key, key) then 0 else 1 + KeyPosition(edges[1..], key)
  }

  function IndexPosition(edges: seq<FlatArrayEdge>, index: nat): (i: nat)
    ensures i <= |edges|
    ensures forall j :: 0 <= j < i ==> edges[j].index < index
    ensures i < |edges| ==> edges[i].index >= index
  {
    if edges == [] || edges[0].index >= index then 0 else 1 + IndexPosition(edges[1..], index)
  }

  function SlotPosition(slots: seq<nat>, slot: nat): (i: nat)
    ensures i <= |slots|
    ensures forall j :: 0 <= j < i ==> slots[j] < slot
    ensures i < |slots| ==> slots[i] >= slot
  {
    if slots == [] || slots[0] >= slot then 0 else 1 + SlotPosition(slots[1..], slot)
  }

  ghost predicate HasKey(node: Node, key: Bytes) {
    var i := KeyPosition(node.objectEdges, key);
    i < |node.objectEdges| && node.objectEdges[i].key == key
  }

  ghost predicate HasIndex(node: Node, index: nat) {
    var i := IndexPosition(node.arrayEdges, index);
    i < |node.arrayEdges| && node.arrayEdges[i].index == index
  }

  /** The child of node `n` along one segment, created when it does not exist. */
  ghost function ChildFor(p: PlanState, n: nat, g: Segment): (r: (PlanState, nat))
    requires n < |p.nodes|
    ensures |p.nodes| <= |r.0.nodes|
  {
    var node := p.nodes[n];
    match g
    case Key(key) =>
      var i := KeyPosition(node.objectEdges, key);
      if HasKey(node, key) then (p, node.objectEdges[i].child)
      else
        var edge := FlatObjectEdge(key, |p.nodes|, p.objectEdges);
        (p.(nodes := p.nodes[n := node.(objectEdges := InsertAt(node.objectEdges, i, edge))] + [EMPTY_NODE],
            objectEdges := p.objectEdges + 1,
            keyBytes := p.keyBytes + |key|),
         |p.nodes|)
    case Index(index) =>
      var i := IndexPosition(node.arrayEdges, index);
      if HasIndex(node, index) then (p, node.arrayEdges[i].child)
      else
        var edge := FlatArrayEdge(index, |p.nodes|);
        (p.(nodes := p.nodes[n := node.(arrayEdges := InsertAt(node.arrayEdges, i, edge))] + [EMPTY_NODE],
            arrayEdges := p.arrayEdges + 1),
         |p.nodes|)
  }

  ghost function AddTerminal(p: PlanState, n: nat, slot: nat): PlanState
    requires n < |p.nodes|
  {
    var node := p.nodes[n];
    p.(nodes := p.nodes[n := node.(terminals := InsertAt(node.terminals, SlotPosition(node.terminals, slot), slot))],
       terminals := p.terminals + 1)
  }

  /** Children point forward and inside the vector. */
  ghost predicate Ordered(nodes: seq<Node>) {
    && (forall n, i :: 0 <= n < |nodes| && 0 <= i < |nodes[n].objectEdges| ==>
          n < nodes[n].objectEdges[i].child < |nodes|)
    && (forall n, i :: 0 <= n < |nodes| && 0 <= i < |nodes[n].arrayEdges| ==>
          n < nodes[n].arrayEdges[i].child < |nodes|)
  }

  ghost function InsertPath(p: PlanState, n: nat, path: Path, depth: nat, slot: nat): (r: PlanState)
    requires n < |p.nodes| && Ordered(p.nodes)
    ensures Ordered(r.nodes) && |p.nodes| <= |r.nodes|
    decreases |path|
  {
    if path == [] then AddTerminal(p, n, slot)
    else
      var (q, child) := ChildFor(p, n, path[0]);
      ChildForOrdered(p, n, path[0]);
      InsertPath(q.(maximumDepth := Max(q.maximumDepth, depth + 1)), child, path[1..], depth + 1, slot)
  }

  lemma ChildForOrdered(p: PlanState, n: nat, g: Segment)
    requires n < |p.nodes| && Ordered(p.nodes)
    ensures
      var (q, child) := ChildFor(p, n, g);
      Ordered(q.nodes) && n < child < |q.nodes|
  {
    hide Less, KeyPosition, IndexPosition;
    OrderedAfter(p, n, g);
  }

  lemma OrderedAfter(p: PlanState, n: nat, g: Segment)
    requires n < |p.nodes| && Ordered(p.nodes)
    ensures Ordered(ChildFor(p, n, g).0.nodes)
  {
    hide Less, KeyPosition, IndexPosition, InsertAt;
    var nodes := ChildFor(p, n, g).0.nodes;
    forall m, i | 0 <= m < |nodes| && 0 <= i < |nodes[m].objectEdges|
      ensures m < nodes[m].objectEdges[i].child < |nodes|
    {
      if g.Key? && m == n {
        var k := KeyPosition(p.nodes[n].objectEdges, g.key);
        InsertedItem(p.nodes[n].objectEdges, k, FlatObjectEdge(g.key, |p.nodes|, p.objectEdges), i);
      }
    }
    forall m, i | 0 <= m < |nodes| && 0 <= i < |nodes[m].arrayEdges|
      ensures m < nodes[m].arrayEdges[i].child < |nodes|
    {
      if g.Index? && m == n {
        var k := IndexPosition(p.nodes[n].arrayEdges, g.index);
        InsertedItem(p.nodes[n].arrayEdges, k, FlatArrayEdge(g.index, |p.nodes|), i);
      }
    }
  }

  lemma InsertedItem<T>(s: seq<T>, i: nat, x: T, k: nat)
    requires i <= |s|
    ensures |InsertAt(s, i, x)| == |s| + 1
    ensures k <= |s| ==> InsertAt(s, i, x)[k] == if k < i then s[k] else if k == i then x else s[k - 1]
  {
  }

  const ROOT_ONLY := PlanState([EMPTY_NODE], 0, 0, 0, 0, 0)

  /** Paths are inserted in slot order, whatever the order of the entries. */
  ghost function Compiled(paths: seq<Path>): (p: PlanState)
    ensures Ordered(p.nodes) && |p.nodes| > 0
  {
    if paths == [] then ROOT_ONLY
    else
      InsertPath(Compiled(paths[..|paths| - 1]), 0, paths[|paths| - 1], 0, |paths| - 1)
  }
}
