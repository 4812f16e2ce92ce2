/** The compiler: descriptors in, one immutable plan out. */
module ProjectionCompiler {
  import opened Arithmetic
  import opened Json
  import opened FiniteSets
  import opened ProjectionSpec
  import opened ProjectionTrie
  import opened SortedSearch
  import opened ProjectionPlan
  import opened ProjectionDescriptors
  import opened ProjectionPlanTree
  import opened ProjectionPlanContent
  import opened ProjectionPlanMeta

  // ---- The path of every slot

  function FindSlot(entries: seq<Entry>, slot: nat): (i: nat)
    ensures i <= |entries|
    ensures i < |entries| ==> entries[i].outputSlot == slot
    ensures forall j :: 0 <= j < i ==> entries[j].outputSlot != slot
  {
    if entries == [] || entries[0].outputSlot == slot then 0 else 1 + FindSlot(entries[1..], slot)
  }

  /** Distinct slots below their own number leave no slot out. */
  lemma EverySlotHasAnEntry(entries: seq<Entry>, slot: nat)
    requires forall i :: 0 <= i < |entries| ==> entries[i].outputSlot < |entries|
    requires forall i, j :: 0 <= i < j < |entries| ==> entries[i].outputSlot != entries[j].outputSlot
    requires slot < |entries|
    ensures FindSlot(entries, slot) < |entries|
  {
    var taken := set i | 0 <= i < |entries| :: entries[i].outputSlot;
    DistinctSlots(entries, |entries|);
    if FindSlot(entries, slot) == |entries| {
      assert slot !in taken;
      assert taken <= UpTo(|entries|) - {slot};
      SubsetSize(taken, UpTo(|entries|) - {slot});
      assert false;
    }
  }

  lemma {:induction false} DistinctSlots(entries: seq<Entry>, n: nat)
    requires n <= |entries|
    requires forall i, j :: 0 <= i < j < |entries| ==> entries[i].outputSlot != entries[j].outputSlot
    ensures |set i | 0 <= i < n :: entries[i].outputSlot| == n
  {
    if n > 0 {
      DistinctSlots(entries, n - 1);
      var before := set i | 0 <= i < n - 1 :: entries[i].outputSlot;
      assert entries[n - 1].outputSlot !in before;
      assert (set i | 0 <= i < n :: entries[i].outputSlot) == before + {entries[n - 1].outputSlot};
    }
  }

  ghost function UpTo(n: nat): (r: set<nat>)
    ensures |r| == n
    ensures forall s: nat :: s in r <==> s < n
  {
    if n == 0 then {} else UpTo(n - 1) + {n - 1}
  }

  ghost function PathsBySlot(entries: seq<Entry>, segments: seq<RawSegment>, keyBytes: Bytes): (paths: seq<Path>)
    requires Accepted(entries, segments, keyBytes)
    ensures |paths| == |entries|
  {
    seq(|entries|, s requires 0 <= s < |entries| =>
      EverySlotHasAnEntry(entries, s);
      PathOf(entries[FindSlot(entries, s)], segments, keyBytes))
  }

  /** The path of every entry's slot is what the entry's raw numbers say. */
  lemma PathsAreRead(entries: seq<Entry>, segments: seq<RawSegment>, keyBytes: Bytes, i: nat)
    requires Accepted(entries, segments, keyBytes) && i < |entries|
    ensures entries[i].outputSlot < |entries|
    ensures DescribesPath(entries[i], segments, keyBytes,
                          PathsBySlot(entries, segments, keyBytes)[entries[i].outputSlot])
  {
    var slot := entries[i].outputSlot;
    EverySlotHasAnEntry(entries, slot);
    assert FindSlot(entries, slot) == i;
    PathIsRead(entries[i], segments, keyBytes);
  }

  /** The round trip: describing any paths and compiling the description gives the same paths. */
  lemma DescribedPathsComeBack(paths: seq<Path>)
    requires 0 < |paths| <= UINT32_MAX && |Describe(paths).segments| <= UINT32_MAX
    requires forall path :: path in paths ==> path != []
    ensures
      var d := Describe(paths);
      Accepted(d.entries, d.segments, d.keyBytes) && PathsBySlot(d.entries, d.segments, d.keyBytes) == paths
  {
    var d := Describe(paths);
    DescribedIsAccepted(paths);
    DescribeWrites(paths);
    forall s | 0 <= s < |paths| ensures PathsBySlot(d.entries, d.segments, d.keyBytes)[s] == paths[s] {
      assert Written(d, paths, s);
      PathsAreRead(d.entries, d.segments, d.keyBytes, s);
      DescribedOnce(d.entries[s], d.segments, d.keyBytes,
                    PathsBySlot(d.entries, d.segments, d.keyBytes)[s], paths[s]);
    }
  }

  // ---- Positions found by binary search

  lemma KeyPositionIs(edges: seq<FlatObjectEdge>, key: Bytes, i: nat)
    requires i <= |edges|
    requires forall j :: 0 <= j < i ==> Less(edges[j].key, key)
    requires i < |edges| ==> !Less(edges[i].key, key)
    ensures KeyPosition(edges, key) == i
  {
  }

  lemma SlotPositionIs(slots: seq<nat>, slot: nat, i: nat)
    requires i <= |slots|
    requires forall j :: 0 <= j < i ==> slots[j] < slot
    requires i < |slots| ==> slots[i] >= slot
    ensures SlotPosition(slots, slot) == i
  {
  }

  method SearchKey(edges: seq<FlatObjectEdge>, key: Bytes) returns (position: nat)
    requires forall i, j :: 0 <= i < j < |edges| ==> Less(edges[i].key, edges[j].key)
    ensures position == KeyPosition(edges, key)
  {
    var keys := seq(|edges|, i requires 0 <= i < |edges| => edges[i].key);
    position := LowerBoundKey(keys, key);
    assert forall i :: 0 <= i < |edges| ==> keys[i] == edges[i].key;
    KeyPositionIs(edges, key, position);
  }

  method SearchIndex(edges: seq<FlatArrayEdge>, index: nat) returns (position: nat)
    requires forall i, j :: 0 <= i < j < |edges| ==> edges[i].index < edges[j].index
    ensures position == IndexPosition(edges, index)
  {
    var indices := seq(|edges|, i requires 0 <= i < |edges| => edges[i].index);
    position := LowerBound(indices, index);
    assert forall i :: 0 <= i < |edges| ==> indices[i] == edges[i].index;
    IndexPositionIs(edges, index, position);
  }

  lemma AppendCommutes(nodes: seq<Node>, n: nat, node: Node)
    requires n < |nodes|
    ensures (nodes + [EMPTY_NODE])[n := node] == nodes[n := node] + [EMPTY_NODE]
  {
  }

  class Plan {
    var nodes: seq<Node>
    var outputSlots: nat
    var objectEdges: nat
    var arrayEdges: nat
    var terminals: nat
    var keyBytes: nat
    var maximumDepth: nat

    ghost function State(): PlanState
      reads this
    {
      PlanState(nodes, objectEdges, arrayEdges, terminals, keyBytes, maximumDepth)
    }

    ghost predicate Valid()
      reads this
    {
      && 0 < |nodes| && Ordered(nodes)
      && forall m :: 0 <= m < |nodes| ==> SortedNode(nodes[m])
    }

    constructor (outputSlots: nat)
      ensures Valid() && State() == ROOT_ONLY && this.outputSlots == outputSlots
    {
      nodes := [EMPTY_NODE];
      objectEdges, arrayEdges, terminals, keyBytes, maximumDepth := 0, 0, 0, 0, 0;
      this.outputSlots := outputSlots;
    }

    method CreateNode() returns (n: nat)
      modifies this`nodes
      ensures n == |old(nodes)| && nodes == old(nodes) + [EMPTY_NODE]
    {
      n := |nodes|;
      nodes := nodes + [EMPTY_NODE];
    }

    method ObjectChild(n: nat, key: Bytes) returns (child: nat)
      requires Valid() && n < |nodes|
      modifies this
      ensures Valid() && outputSlots == old(outputSlots)
      ensures n < child < |nodes|
      ensures (State(), child) == ChildFor(old(State()), n, Key(key))
    {
      var edges := nodes[n].objectEdges;
      var position := SearchKey(edges, key);
      if position < |edges| && edges[position].key == key {
        return edges[position].child;
      }
      ChildAddsEdge(State(), n, Key(key));
      ChildForOrdered(State(), n, Key(key));
      AppendCommutes(nodes, n, nodes[n].(objectEdges := InsertAt(edges, position, FlatObjectEdge(key, |nodes|, objectEdges))));
      child := CreateNode();
      nodes := nodes[n := nodes[n].(objectEdges := InsertAt(edges, position, FlatObjectEdge(key, child, objectEdges)))];
      objectEdges := objectEdges + 1;
      keyBytes := keyBytes + |key|;
    }

    method ArrayChild(n: nat, index: nat) returns (child: nat)
      requires Valid() && n < |nodes|
      modifies this
      ensures Valid() && outputSlots == old(outputSlots)
      ensures n < child < |nodes|
      ensures (State(), child) == ChildFor(old(State()), n, Index(index))
    {
      var edges := nodes[n].arrayEdges;
      var position := SearchIndex(edges, index);
      hide SortedNode, AddsEdge;
      if position < |edges| && edges[position].index == index {
        return edges[position].child;
      }
      ChildAddsEdge(State(), n, Index(index));
      ChildForOrdered(State(), n, Index(index));
      AppendCommutes(nodes, n, nodes[n].(arrayEdges := InsertAt(edges, position, FlatArrayEdge(index, |nodes|))));
      hide InsertAt, Ordered;
      child := CreateNode();
      nodes := nodes[n := nodes[n].(arrayEdges := InsertAt(edges, position, FlatArrayEdge(index, child)))];
      arrayEdges := arrayEdges + 1;
    }

    method Child(n: nat, segment: Segment) returns (child: nat)
      requires Valid() && n < |nodes|
      modifies this
      ensures Valid() && outputSlots == old(outputSlots)
      ensures n < child < |nodes|
      ensures (State(), child) == ChildFor(old(State()), n, segment)
    {
      match segment {
        case Key(key) => child := ObjectChild(n, key);
        case Index(index) => child := ArrayChild(n, index);
      }
    }

    method AddTerminalSlot(n: nat, slot: nat)
      requires Valid() && n < |nodes|
      modifies this`nodes, this`terminals
      ensures State() == AddTerminal(old(State()), n, slot)
    {
      var slots := nodes[n].terminals;
      var position := LowerBound(slots, slot);
      SlotPositionIs(slots, slot, position);
      nodes := nodes[n := nodes[n].(terminals := InsertAt(slots, position, slot))];
      terminals := terminals + 1;
    }

    method InsertEntry(entry: Entry, segments: seq<RawSegment>, keyBytes: Bytes)
      requires Valid()
      requires EntryInRange(entry, entry.outputSlot + 1, |segments|)
      requires forall k :: 0 <= k < |segments| ==> SegmentInRange(segments[k], keyBytes)
      modifies this
      ensures Ordered(nodes) && 0 < |nodes| && outputSlots == old(outputSlots)
      ensures State() == InsertPath(old(State()), 0, PathOf(entry, segments, keyBytes), 0, entry.outputSlot)
    {
      hide ChildFor, SortedNode;
      ghost var path := PathOf(entry, segments, keyBytes);
      ghost var start := State();
      var node := 0;
      assert path[0..] == path;
      for k := 0 to entry.segmentCount
        invariant Valid() && node < |nodes| && outputSlots == old(outputSlots)
        invariant InsertPath(State(), node, path[k..], k, entry.outputSlot)
               == InsertPath(start, 0, path, 0, entry.outputSlot)
      {
        var segment := SegmentOf(segments[entry.segmentOffset + k], keyBytes);
        assert path[k..][0] == segment && path[k..][1..] == path[k + 1..];
        node := Child(node, segment);
        maximumDepth := Max(maximumDepth, k + 1);
      }
      AddTerminalSlot(node, entry.outputSlot);
      assert path[entry.segmentCount..] == [];
    }

    /** One pass in reverse order of identifiers fills in what each node caches of its subtree. */
    method FinalizePlanMetadata()
      requires Valid()
      modifies this`nodes
      ensures FinishedFrom(old(State()), nodes)
    {
      ghost var p := State();
      var n := |nodes|;
      while n > 0
        invariant n <= |nodes| && Ordered(nodes) && SameShape(p.nodes, nodes)
        invariant forall m: nat :: n <= m < |nodes| ==> MetaAt(nodes, m)
      {
        n := n - 1;
        FinalizeNode(n);
      }
    }

    method FinalizeNode(n: nat)
      requires Ordered(nodes) && n < |nodes|
      requires forall m: nat :: n < m < |nodes| ==> MetaAt(nodes, m)
      modifies this`nodes
      ensures Ordered(nodes) && SameShape(old(nodes), nodes)
      ensures forall m: nat :: n <= m < |nodes| ==> MetaAt(nodes, m)
    {
      var node := nodes[n];
      var children := Children(node);
      var count: nat, first: nat := |node.terminals|, FirstTerminalOf(node);
      ChildrenInRange(nodes, n);
      assert children[0..] == children;
      for k := 0 to |children|
        invariant forall c :: c in children[k..] ==> c < |nodes|
        invariant Include(nodes, children[k..], count, first)
               == Include(nodes, children, |node.terminals|, FirstTerminalOf(node))
      {
        assert children[k] in children && children[k..][1..] == children[k + 1..];
        assert forall c :: c in children[k + 1..] ==> c in children;
        count := count + nodes[children[k]].subtreeSlots;
        first := Min(first, nodes[children[k]].first);
      }
      nodes := nodes[n := node.(subtreeSlots := count, first := first)];
      WritingKeepsMeta(old(nodes), nodes, n);
    }

    /** The pointers of a finished plan, read as a tree. */
    function Root(): Trie
      requires Ordered(nodes) && 0 < |nodes|
      reads this
    {
      Unfold(nodes, 0)
    }
  }

  // Writing one node's metadata keeps that of the nodes after it.
  lemma WritingKeepsMeta(a: seq<Node>, b: seq<Node>, n: nat)
    requires Ordered(a) && Ordered(b) && n < |a| && SameShape(a, b)
    requires forall m :: n < m < |a| ==> a[m] == b[m]
    requires forall c :: c in Children(a[n]) ==> c < |a|
    requires (b[n].subtreeSlots, b[n].first)
          == Include(a, Children(a[n]), |a[n].terminals|, FirstTerminalOf(a[n]))
    requires forall m: nat :: n < m < |a| ==> MetaAt(a, m)
    ensures forall m: nat :: n <= m < |b| ==> MetaAt(b, m)
  {
    forall m: nat | n <= m < |b| ensures MetaAt(b, m) {
      ChildrenInRange(a, m);
      ChildrenInRange(b, m);
      assert Children(a[m]) == Children(b[m]);
      assert m > n ==> MetaAt(a, m);
      SameInclude(a, b, n, Children(b[m]), |b[m].terminals|, FirstTerminalOf(b[m]));
    }
  }

  lemma {:induction false} SameInclude(a: seq<Node>, b: seq<Node>, n: nat, children: seq<nat>, count: nat, first: nat)
    requires |a| == |b| && forall c :: c in children ==> n < c < |a|
    requires forall m :: n < m < |a| ==> a[m] == b[m]
    ensures Include(a, children, count, first) == Include(b, children, count, first)
    decreases |children|
  {
    if children != [] {
      assert children[0] in children;
      assert forall c :: c in children[1..] ==> c in children;
      SameInclude(a, b, n, children[1..], count + a[children[0]].subtreeSlots, Min(first, a[children[0]].first));
    }
  }

  // Finds the entry of one slot and inserts it.
  method InsertSlot(plan: Plan, entries: seq<Entry>, segments: seq<RawSegment>, keyBytes: Bytes, slot: nat)
    requires Accepted(entries, segments, keyBytes) && slot < |entries|
    requires plan.Valid() && plan.State() == Compiled(PathsBySlot(entries, segments, keyBytes)[..slot])
    modifies plan
    ensures plan.Valid() && plan.outputSlots == old(plan.outputSlots)
    ensures plan.State() == Compiled(PathsBySlot(entries, segments, keyBytes)[..slot + 1])
  {
    ghost var paths := PathsBySlot(entries, segments, keyBytes);
    EverySlotHasAnEntry(entries, slot);
    var i := SearchSlot(entries, slot);
    assert paths[slot] == PathOf(entries[i], segments, keyBytes);
    assert paths[..slot + 1][..slot] == paths[..slot];
    CompiledContent(paths[..slot + 1]);
    hide Accepted, PathsBySlot, InsertPath, ContentIs;
    plan.InsertEntry(entries[i], segments, keyBytes);
  }

  method SearchSlot(entries: seq<Entry>, slot: nat) returns (i: nat)
    ensures i == FindSlot(entries, slot)
  {
    i := 0;
    while i < |entries| && entries[i].outputSlot != slot
      invariant 0 <= i <= |entries|
      invariant FindSlot(entries, slot) == i + FindSlot(entries[i..], slot)
    {
      assert entries[i..][1..] == entries[i + 1..];
      i := i + 1;
    }
  }

  /** A descriptor set is compiled exactly when it is accepted, and the plan depends only on the
    * path of each slot. */
  method PlanCreate(entries: seq<Entry>, segments: seq<RawSegment>, keyBytes: Bytes)
    returns (code: StatusCode, plan: Plan?)
    ensures code == (if Accepted(entries, segments, keyBytes) then OK else InvalidArgument)
    ensures code == OK <==> plan != null
    ensures plan != null ==>
              && fresh(plan) && plan.outputSlots == |entries|
              && FinishedFrom(Compiled(PathsBySlot(entries, segments, keyBytes)), plan.nodes)
              && plan.State() == Compiled(PathsBySlot(entries, segments, keyBytes)).(nodes := plan.nodes)
    ensures plan != null ==>
              forall i :: 0 <= i < |entries| ==>
                && entries[i].outputSlot < |entries|
                && DescribesPath(entries[i], segments, keyBytes,
                                 PathsBySlot(entries, segments, keyBytes)[entries[i].outputSlot])
  {
    var valid := DescriptorSetIsValid(entries, segments, keyBytes);
    if !valid {
      return InvalidArgument, null;
    }
    ghost var paths := PathsBySlot(entries, segments, keyBytes);
    var created := new Plan(|entries|);
    assert paths[..0] == [];
    for slot := 0 to |entries|
      invariant created.Valid() && created.outputSlots == |entries|
      invariant created.State() == Compiled(paths[..slot])
    {
      InsertSlot(created, entries, segments, keyBytes, slot);
    }
    assert paths[..|entries|] == paths;
    created.FinalizePlanMetadata();
    forall i | 0 <= i < |entries|
      ensures entries[i].outputSlot < |entries|
      ensures DescribesPath(entries[i], segments, keyBytes, paths[entries[i].outputSlot])
    {
      PathsAreRead(entries, segments, keyBytes, i);
    }
    return OK, created;
  }

  // ---- Order independence

  /** Reordering the entries changes nothing: the path of each slot stays the same. */
  lemma PermutedEntriesSamePaths(a: seq<Entry>, b: seq<Entry>, segments: seq<RawSegment>, keyBytes: Bytes)
    requires Accepted(a, segments, keyBytes) && multiset(a) == multiset(b)
    ensures Accepted(b, segments, keyBytes)
    ensures PathsBySlot(a, segments, keyBytes) == PathsBySlot(b, segments, keyBytes)
  {
    assert |multiset(a)| == |multiset(b)|;
    assert forall e :: e in a <==> e in multiset(a);
    assert forall e :: e in b <==> e in multiset(b);
    PermutedStillAccepted(a, b, segments, keyBytes);
    forall s | 0 <= s < |a|
      ensures PathsBySlot(a, segments, keyBytes)[s] == PathsBySlot(b, segments, keyBytes)[s]
    {
      EverySlotHasAnEntry(a, s);
      EverySlotHasAnEntry(b, s);
      var x, y := a[FindSlot(a, s)], b[FindSlot(b, s)];
      assert y in a;
      var i :| 0 <= i < |a| && a[i] == y;
      assert i == FindSlot(a, s);
    }
  }

  lemma PermutedStillAccepted(a: seq<Entry>, b: seq<Entry>, segments: seq<RawSegment>, keyBytes: Bytes)
    requires Accepted(a, segments, keyBytes) && multiset(a) == multiset(b)
    requires forall e :: e in a <==> e in b
    requires |a| == |b|
    ensures Accepted(b, segments, keyBytes)
  {
    forall i | 0 <= i < |b| ensures EntryInRange(b[i], |b|, |segments|) {
      assert b[i] in a;
    }
    forall k | 0 <= k < |segments| ensures Referenced(b, k) {
      assert Referenced(a, k);
      var i :| 0 <= i < |a| && Covers(a[i], k);
      assert a[i] in b;
    }
    forall i, j | 0 <= i < j < |b| ensures b[i].outputSlot != b[j].outputSlot {
      TwoCopies(a, b, i, j);
    }
  }

  lemma TwoPlacesTwoCopies(b: seq<Entry>, i: nat, j: nat)
    requires i < j < |b| && b[i] == b[j]
    ensures multiset(b)[b[i]] >= 2
  {
    assert b == b[..i] + [b[i]] + b[i + 1..j] + [b[j]] + b[j + 1..];
  }

  lemma OneCopy(a: seq<Entry>, m: nat)
    requires m < |a|
    requires forall i, j :: 0 <= i < j < |a| ==> a[i].outputSlot != a[j].outputSlot
    ensures multiset(a)[a[m]] == 1
  {
    assert a == a[..m] + [a[m]] + a[m + 1..];
    assert a[m] !in a[..m] && a[m] !in a[m + 1..];
  }

  // Two equal slots in `b` would be two copies of one entry, but `a` has one of each.
  lemma TwoCopies(a: seq<Entry>, b: seq<Entry>, i: nat, j: nat)
    requires multiset(a) == multiset(b) && i < j < |b|
    requires forall e :: e in a <==> e in b
    requires forall m, n :: 0 <= m < n < |a| ==> a[m].outputSlot != a[n].outputSlot
    ensures b[i].outputSlot != b[j].outputSlot
  {
    assert b[i] in a && b[j] in a;
    var m :| 0 <= m < |a| && a[m] == b[i];
    var n :| 0 <= n < |a| && a[n] == b[j];
    OneCopy(a, m);
    if m == n {
      TwoPlacesTwoCopies(b, i, j);
    }
  }

  /** A compiled vector has one way to be finished, so permuted entries give identical plans. */
  lemma {:induction false} FinishedOnce(p: PlanState, a: seq<Node>, b: seq<Node>, n: nat)
    requires FinishedFrom(p, a) && FinishedFrom(p, b) && n <= |a|
    ensures forall m :: n <= m < |a| ==> a[m] == b[m]
    decreases |a| - n
  {
    if n < |a| {
      FinishedOnce(p, a, b, n + 1);
      ChildrenInRange(a, n);
      ChildrenInRange(b, n);
      assert Children(a[n]) == Children(b[n]);
      SameInclude(a, b, n, Children(a[n]), |a[n].terminals|, FirstTerminalOf(a[n]));
      assert MetaAt(a, n) && MetaAt(b, n);
    }
  }

  lemma PermutedEntriesSamePlan(a: seq<Entry>, b: seq<Entry>, segments: seq<RawSegment>, keyBytes: Bytes,
                                x: seq<Node>, y: seq<Node>)
    requires Accepted(a, segments, keyBytes) && Accepted(b, segments, keyBytes) && multiset(a) == multiset(b)
    requires FinishedFrom(Compiled(PathsBySlot(a, segments, keyBytes)), x)
    requires FinishedFrom(Compiled(PathsBySlot(b, segments, keyBytes)), y)
    ensures x == y
  {
    PermutedEntriesSamePaths(a, b, segments, keyBytes);
    FinishedOnce(Compiled(PathsBySlot(a, segments, keyBytes)), x, y, 0);
  }
}
