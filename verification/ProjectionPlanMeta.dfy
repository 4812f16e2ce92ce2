/** The reverse pass over the nodes, and the plan as the trie that execution walks. */
module ProjectionPlanMeta {
  import opened Arithmetic
  import opened Json
  import opened ProjectionSpec
  import opened ProjectionTrie
  import opened ProjectionPlan
  import opened ProjectionPlanTree
  import opened ProjectionPlanContent

  // ---- What the pass writes at one node, from what its children already hold

  function Segments(node: Node): (r: seq<Segment>)
    ensures |r| == |node.objectEdges| + |node.arrayEdges|
  {
    seq(|node.objectEdges|, i requires 0 <= i < |node.objectEdges| => Key(node.objectEdges[i].key))
    + seq(|node.arrayEdges|, i requires 0 <= i < |node.arrayEdges| => Index(node.arrayEdges[i].index))
  }

  function Children(node: Node): (r: seq<nat>)
    ensures |r| == |node.objectEdges| + |node.arrayEdges|
  {
    seq(|node.objectEdges|, i requires 0 <= i < |node.objectEdges| => node.objectEdges[i].child)
    + seq(|node.arrayEdges|, i requires 0 <= i < |node.arrayEdges| => node.arrayEdges[i].child)
  }

  ghost function Include(nodes: seq<Node>, children: seq<nat>, count: nat, first: nat): (nat, nat)
    requires forall c :: c in children ==> c < |nodes|
    decreases |children|
  {
    if children == [] then (count, first)
    else
      assert children[0] in children;
      var c := nodes[children[0]];
      assert forall d :: d in children[1..] ==> d in children;
      Include(nodes, children[1..], count + c.subtreeSlots, Min(first, c.first))
  }

  function FirstTerminalOf(node: Node): nat {
    if node.terminals == [] then SLOT_UNAVAILABLE else node.terminals[0]
  }

  lemma ChildrenInRange(nodes: seq<Node>, n: nat)
    requires Ordered(nodes) && n < |nodes|
    ensures forall c :: c in Children(nodes[n]) ==> n < c < |nodes|
  {
  }

  ghost predicate MetaAt(nodes: seq<Node>, n: nat)
    requires Ordered(nodes) && n < |nodes|
  {
    ChildrenInRange(nodes, n);
    (nodes[n].subtreeSlots, nodes[n].first) ==
    Include(nodes, Children(nodes[n]), |nodes[n].terminals|, FirstTerminalOf(nodes[n]))
  }

  ghost predicate SameShape(a: seq<Node>, b: seq<Node>) {
    SameEdges(a, b) && forall m :: 0 <= m < |a| ==> a[m].terminals == b[m].terminals
  }

  /** The finished plan: the compiled vector with its metadata filled in. */
  ghost predicate FinishedFrom(p: PlanState, nodes: seq<Node>) {
    && Ordered(p.nodes) && Ordered(nodes) && SameShape(p.nodes, nodes)
    && forall n: nat :: n < |nodes| ==> MetaAt(nodes, n)
  }

  // ---- The metadata is exact

  ghost function Owned(paths: seq<Path>, q: Path): set<nat> {
    set s | 0 <= s < |paths| && q <= paths[s]
  }

  ghost predicate LeastOf(first: nat, slots: set<nat>) {
    if slots == {} then first == SLOT_UNAVAILABLE
    else first in slots && forall s :: s in slots ==> first <= s
  }

  ghost predicate Exact(nodes: seq<Node>, n: nat, slots: set<nat>) {
    n < |nodes| && nodes[n].subtreeSlots == |slots| && LeastOf(nodes[n].first, slots)
  }

  ghost function UnionAll(slots: set<nat>, owned: seq<set<nat>>): set<nat>
    decreases |owned|
  {
    if owned == [] then slots else UnionAll(slots + owned[0], owned[1..])
  }

  lemma {:induction false} InUnionAll(slots: set<nat>, owned: seq<set<nat>>, s: nat)
    ensures s in UnionAll(slots, owned) <==> s in slots || exists i :: 0 <= i < |owned| && s in owned[i]
    decreases |owned|
  {
    if owned != [] {
      InUnionAll(slots + owned[0], owned[1..], s);
      if i :| 0 <= i < |owned| && s in owned[i] {
        assert i > 0 ==> owned[1..][i - 1] == owned[i];
      }
    }
  }

  lemma {:induction false} IncludeIsExact(nodes: seq<Node>, children: seq<nat>, owned: seq<set<nat>>,
                                          slots: set<nat>, count: nat, first: nat)
    requires |children| == |owned|
    requires forall i :: 0 <= i < |children| ==> Exact(nodes, children[i], owned[i])
    requires forall i :: 0 <= i < |owned| ==> slots !! owned[i]
    requires forall i, j :: 0 <= i < j < |owned| ==> owned[i] !! owned[j]
    requires forall i, s :: 0 <= i < |owned| && s in owned[i] ==> s < SLOT_UNAVAILABLE
    requires forall s :: s in slots ==> s < SLOT_UNAVAILABLE
    requires count == |slots| && LeastOf(first, slots)
    ensures
      (forall c :: c in children ==> c < |nodes|) &&
      var r := Include(nodes, children, count, first);
      r.0 == |UnionAll(slots, owned)| && LeastOf(r.1, UnionAll(slots, owned))
    decreases |children|
  {
    assert forall c :: c in children ==> c < |nodes|;
    if children != [] {
      var child := nodes[children[0]];
      assert Exact(nodes, children[0], owned[0]);
      LeastOfUnion(first, slots, child.first, owned[0], SLOT_UNAVAILABLE);
      hide LeastOf;
      IncludeIsExact(nodes, children[1..], owned[1..], slots + owned[0],
                     count + child.subtreeSlots, Min(first, child.first));
    }
  }

  lemma LeastOfUnion(a: nat, s: set<nat>, b: nat, t: set<nat>, bound: nat)
    requires LeastOf(a, s) && LeastOf(b, t) && bound <= SLOT_UNAVAILABLE
    requires forall x :: x in s + t ==> x < bound
    ensures LeastOf(Min(a, b), s + t)
  {
    if s == {} {
      assert s + t == t;
    } else if t == {} {
      assert s + t == s;
    }
  }

  lemma SegmentsDistinct(node: Node)
    requires SortedNode(node)
    ensures forall i :: 0 <= i < |Segments(node)| ==> Segments(node)[i] !in Segments(node)[..i]
    ensures forall i :: 0 <= i < |Segments(node)| ==> FlatStep(node, Segments(node)[i]) == Some(Children(node)[i])
  {
    var s := Segments(node);
    forall i | 0 <= i < |s| ensures FlatStep(node, s[i]) == Some(Children(node)[i]) {
      if i < |node.objectEdges| {
        KeyFound(node.objectEdges, i);
      } else {
        IndexFound(node.arrayEdges, i - |node.objectEdges|);
      }
    }
    forall i, j | 0 <= j < i < |s| ensures s[i] != s[j] {
      if i < |node.objectEdges| {
        LessIrreflexive(node.objectEdges[i].key);
      }
    }
  }

  lemma StepIsSegment(node: Node, g: Segment)
    requires FlatStep(node, g).Some?
    ensures g in Segments(node)
  {
    var s := Segments(node);
    match g {
      case Key(key) =>
        assert s[KeyPosition(node.objectEdges, key)] == g;
      case Index(index) =>
        assert s[|node.objectEdges| + IndexPosition(node.arrayEdges, index)] == g;
    }
  }

  lemma TerminalsAreExact(terminals: seq<nat>, slots: set<nat>)
    requires forall i, j :: 0 <= i < j < |terminals| ==> terminals[i] < terminals[j]
    requires forall s :: s in slots <==> s in terminals
    ensures |terminals| == |slots|
    ensures LeastOf(if terminals == [] then SLOT_UNAVAILABLE else terminals[0], slots)
  {
    TerminalsCount(terminals, slots);
    if terminals == [] {
      assert slots == {};
    } else {
      assert terminals[0] in terminals;
    }
  }

  lemma {:induction false} TerminalsCount(terminals: seq<nat>, slots: set<nat>)
    requires forall i, j :: 0 <= i < j < |terminals| ==> terminals[i] < terminals[j]
    requires forall s :: s in slots <==> s in terminals
    ensures |terminals| == |slots|
  {
    if terminals == [] {
      assert slots == {};
    } else {
      var k := |terminals| - 1;
      var last := terminals[k];
      assert terminals == terminals[..k] + [last];
      TerminalsCount(terminals[..k], slots - {last});
    }
  }

  /** Every node's cached count is the number of slots whose paths run through it, and its cached
    * first slot is the least of them. */
  lemma {:induction false} MetadataIsExact(p: PlanState, nodes: seq<Node>, paths: seq<Path>, q: Path, n: nat)
    requires ContentIs(p, paths) && FinishedFrom(p, nodes) && |paths| <= SLOT_UNAVAILABLE
    requires n < |nodes| && Reach(p.nodes, 0, q) == Some(n)
    ensures Exact(nodes, n, Owned(paths, q))
    decreases |nodes| - n
  {
    var node := p.nodes[n];
    var segments := Segments(node);
    SegmentsDistinct(node);
    ChildrenInRange(p.nodes, n);
    ChildrenInRange(nodes, n);
    assert Children(nodes[n]) == Children(node);
    forall i | 0 <= i < |Children(node)| ensures Exact(nodes, Children(node)[i], Owned(paths, q + [segments[i]])) {
      ReachSnoc(p.nodes, 0, q, segments[i]);
      MetadataIsExact(p, nodes, paths, q + [segments[i]], Children(node)[i]);
    }
    NodeTerminals(p, paths, q, n);
    var own := set s | 0 <= s < |paths| && paths[s] == q;
    var owned := OwnedBelow(paths, q, segments);
    TerminalsAreExact(node.terminals, own);
    SiblingsDisjoint(paths, q, segments);
    IncludeIsExact(nodes, Children(node), owned, own, |node.terminals|, FirstTerminalOf(node));
    OwnedIsUnion(p, paths, q, n);
    assert MetaAt(nodes, n);
  }

  lemma {:induction false} RootOwnsAll(paths: seq<Path>)
    ensures |Owned(paths, [])| == |paths|
    decreases |paths|
  {
    if paths != [] {
      var last := |paths| - 1;
      RootOwnsAll(paths[..last]);
      assert Owned(paths, []) == Owned(paths[..last], []) + {last};
    }
  }

  /** The root of a plan counts every entry, and its least slot is slot 0. */
  lemma RootCountsEveryEntry(p: PlanState, nodes: seq<Node>, paths: seq<Path>)
    requires ContentIs(p, paths) && FinishedFrom(p, nodes) && 0 < |paths| <= SLOT_UNAVAILABLE
    ensures |nodes| > 0 && nodes[0].subtreeSlots == |paths| && nodes[0].first == 0
  {
    assert Reach(p.nodes, 0, []) == Some(0);
    MetadataIsExact(p, nodes, paths, [], 0);
    RootOwnsAll(paths);
    assert 0 in Owned(paths, []);
  }

  lemma NodeTerminals(p: PlanState, paths: seq<Path>, q: Path, n: nat)
    requires ContentIs(p, paths) && Reach(p.nodes, 0, q) == Some(n)
    ensures forall s: nat :: s in p.nodes[n].terminals <==> s < |paths| && paths[s] == q
  {
    assert forall s: nat :: TerminalAt(p.nodes, q, s) <==> s in p.nodes[n].terminals;
  }

  lemma NextSegment(path: Path, q: Path, g: Segment)
    ensures q + [g] <= path <==> q <= path && |q| < |path| && path[|q|] == g
  {
    assert (q + [g])[|q|] == g;
    if q <= path && |q| < |path| && path[|q|] == g {
      assert path[..|q| + 1] == q + [g];
    }
  }

  ghost function OwnedBelow(paths: seq<Path>, q: Path, segments: seq<Segment>): (r: seq<set<nat>>)
    ensures |r| == |segments|
    ensures forall i :: 0 <= i < |r| ==> r[i] == Owned(paths, q + [segments[i]])
  {
    seq(|segments|, i requires 0 <= i < |segments| => Owned(paths, q + [segments[i]]))
  }

  lemma SiblingsDisjoint(paths: seq<Path>, q: Path, segments: seq<Segment>)
    requires forall i :: 0 <= i < |segments| ==> segments[i] !in segments[..i]
    ensures
      var owned := OwnedBelow(paths, q, segments);
      && (forall i, s :: 0 <= i < |owned| && s in owned[i] ==> s < |paths| && paths[s] != q)
      && (forall i, j :: 0 <= i < j < |owned| ==> owned[i] !! owned[j])
  {
    var owned := OwnedBelow(paths, q, segments);
    forall i, s | 0 <= i < |owned| && s in owned[i]
      ensures s < |paths| && |q| < |paths[s]| && paths[s][|q|] == segments[i] && paths[s] != q
    {
      NextSegment(paths[s], q, segments[i]);
    }
    forall i, j | 0 <= i < j < |segments| ensures segments[i] != segments[j] {
      assert segments[j] !in segments[..j];
      assert segments[..j][i] == segments[i];
    }
  }

  lemma OwnedIsUnion(p: PlanState, paths: seq<Path>, q: Path, n: nat)
    requires ContentIs(p, paths) && Reach(p.nodes, 0, q) == Some(n)
    ensures
      var segments := Segments(p.nodes[n]);
      UnionAll((set s | 0 <= s < |paths| && paths[s] == q), OwnedBelow(paths, q, segments)) == Owned(paths, q)
  {
    var segments := Segments(p.nodes[n]);
    var own := set s | 0 <= s < |paths| && paths[s] == q;
    var owned := OwnedBelow(paths, q, segments);
    forall s: nat ensures s in UnionAll(own, owned) <==> s in Owned(paths, q) {
      InUnionAll(own, owned, s);
      if i :| 0 <= i < |owned| && s in owned[i] {
        NextSegment(paths[s], q, segments[i]);
      }
      if s in Owned(paths, q) && paths[s] != q {
        var g := paths[s][|q|];
        NextSegment(paths[s], q, g);
        assert IsPrefixOfSome(q + [g], paths);
        ReachSnoc(p.nodes, 0, q, g);
        StepIsSegment(p.nodes[n], g);
        var i :| 0 <= i < |segments| && segments[i] == g;
        assert s in owned[i];
      }
    }
  }

  // ---- The trie that the nodes' child pointers form

  function Unfold(nodes: seq<Node>, n: nat): Trie
    requires Ordered(nodes) && n < |nodes|
    decreases |nodes| - n
  {
    var node := nodes[n];
    Trie(seq(|node.objectEdges|, i requires 0 <= i < |node.objectEdges| =>
               ObjectEdge(node.objectEdges[i].key, Unfold(nodes, node.objectEdges[i].child),
                          node.objectEdges[i].executionId)),
         seq(|node.arrayEdges|, i requires 0 <= i < |node.arrayEdges| =>
               ArrayEdge(node.arrayEdges[i].index, Unfold(nodes, node.arrayEdges[i].child))),
         node.terminals, node.first)
  }

  lemma StepUnfolds(nodes: seq<Node>, n: nat, g: Segment)
    requires Ordered(nodes) && n < |nodes| && SortedNode(nodes[n])
    ensures Step(Unfold(nodes, n), g) ==
            if FlatStep(nodes[n], g).None? then None else Some(Unfold(nodes, FlatStep(nodes[n], g).value))
  {
    var node, t := nodes[n], Unfold(nodes, n);
    match g {
      case Key(key) =>
        var j := FindKey(t.objectEdges, key);
        assert forall k :: 0 <= k < |t.objectEdges| ==> t.objectEdges[k].key == node.objectEdges[k].key;
        if j < |t.objectEdges| {
          KeyFound(node.objectEdges, j);
        } else {
          assert forall k :: 0 <= k < |node.objectEdges| ==> node.objectEdges[k].key != key;
        }
      case Index(index) =>
        var j := FindIndex(t.arrayEdges, index);
        assert forall k :: 0 <= k < |t.arrayEdges| ==> t.arrayEdges[k].index == node.arrayEdges[k].index;
        if j < |t.arrayEdges| {
          IndexFound(node.arrayEdges, j);
        } else {
          assert forall k :: 0 <= k < |node.arrayEdges| ==> node.arrayEdges[k].index != index;
        }
    }
  }

  lemma {:induction false} AtUnfolds(nodes: seq<Node>, n: nat, x: Path)
    requires Ordered(nodes) && n < |nodes|
    requires forall m :: 0 <= m < |nodes| ==> SortedNode(nodes[m])
    ensures At(Unfold(nodes, n), x) ==
            if Reach(nodes, n, x).None? then None else Some(Unfold(nodes, Reach(nodes, n, x).value))
    decreases |x|
  {
    if x != [] {
      StepUnfolds(nodes, n, x[0]);
      var c := FlatStep(nodes[n], x[0]);
      if c.Some? {
        AtUnfolds(nodes, c.value, x[1..]);
      }
    }
  }

  lemma FinishedTree(p: PlanState, nodes: seq<Node>, paths: seq<Path>)
    requires ContentIs(p, paths) && FinishedFrom(p, nodes)
    ensures Tree(p.(nodes := nodes))
    ensures forall x :: Reach(nodes, 0, x) == Reach(p.nodes, 0, x)
  {
    assert forall n :: 0 <= n < |nodes| ==> SortedNode(nodes[n]) == SortedNode(p.nodes[n]);
    SameEdgesSameTree(p, p.(nodes := nodes));
  }

  /** The published trie holds exactly the slot-to-path map and is well formed for execution. */
  lemma PlanIsTrie(p: PlanState, nodes: seq<Node>, paths: seq<Path>)
    requires ContentIs(p, paths) && FinishedFrom(p, nodes) && |paths| <= SLOT_UNAVAILABLE && paths != []
    ensures Holds(Unfold(nodes, 0), paths)
    ensures WellFormed(Unfold(nodes, 0), |paths|, p.objectEdges)
  {
    var t := Unfold(nodes, 0);
    FinishedTree(p, nodes, paths);
    forall x ensures At(t, x) == if Reach(p.nodes, 0, x).None? then None
                                 else Some(Unfold(nodes, Reach(p.nodes, 0, x).value)) {
      AtUnfolds(nodes, 0, x);
    }
    forall x, s: nat ensures HasSlot(t, x, s) <==> s < |paths| && paths[s] == x {
      assert HasSlot(t, x, s) <==> TerminalAt(p.nodes, x, s);
    }
    forall x | At(t, x).Some? ensures GoodNode(At(t, x).value, |paths|, p.objectEdges) {
      GoodPlanNode(p, nodes, paths, t, x);
    }
    forall x, y, i: nat, j: nat, id: nat | HasEdge(t, x, i, id) && HasEdge(t, y, j, id) ensures x == y && i == j {
      PlanEdgeOnce(p, nodes, paths, x, y, i, j, id);
    }
  }

  lemma PlanEdgeOnce(p: PlanState, nodes: seq<Node>, paths: seq<Path>, x: Path, y: Path, i: nat, j: nat, id: nat)
    requires ContentIs(p, paths) && FinishedFrom(p, nodes)
    requires HasEdge(Unfold(nodes, 0), x, i, id) && HasEdge(Unfold(nodes, 0), y, j, id)
    ensures x == y && i == j
  {
    FinishedTree(p, nodes, paths);
    AtUnfolds(nodes, 0, x);
    AtUnfolds(nodes, 0, y);
    var n, m := Reach(nodes, 0, x).value, Reach(nodes, 0, y).value;
    assert HasFlag(nodes, n, i, id) && HasFlag(nodes, m, j, id);
    assert OneEdgePerFlag(p.(nodes := nodes));
  }

  lemma GoodPlanNode(p: PlanState, nodes: seq<Node>, paths: seq<Path>, t: Trie, x: Path)
    requires ContentIs(p, paths) && FinishedFrom(p, nodes) && |paths| <= SLOT_UNAVAILABLE && paths != []
    requires t == Unfold(nodes, 0) && Holds(t, paths)
    requires At(t, x).Some?
    ensures GoodNode(At(t, x).value, |paths|, p.objectEdges)
  {
    FinishedTree(p, nodes, paths);
    AtUnfolds(nodes, 0, x);
    var n := Reach(nodes, 0, x).value;
    var node := At(t, x).value;
    assert node == Unfold(nodes, n) && SortedNode(nodes[n]);
    assert SortedEdges(node);
    MetadataIsExact(p, nodes, paths, x, n);
    LeastIsFirst(t, x, paths);
    forall e | e in node.objectEdges ensures e.executionId < p.objectEdges {
      var i :| 0 <= i < |node.objectEdges| && node.objectEdges[i] == e;
      assert HasFlag(nodes, n, i, e.executionId);
      assert OneEdgePerFlag(p.(nodes := nodes));
    }
    NodeTerminals(p, paths, x, n);
    assert x == [] || IsPrefixOfSome(x, paths);
    assert Owned(paths, x) != {} by {
      if x == [] {
        assert 0 in Owned(paths, x);
      } else {
        var s :| 0 <= s < |paths| && x <= paths[s];
        assert s in Owned(paths, x);
      }
    }
  }

  // Slots below a node are those whose paths continue its path.
  lemma LeastIsFirst(t: Trie, x: Path, paths: seq<Path>)
    requires Holds(t, paths) && At(t, x).Some?
    ensures LeastOf(At(t, x).value.first, Owned(paths, x)) && Owned(paths, x) != {} ==> FirstIsLeast(At(t, x).value)
  {
    var node := At(t, x).value;
    forall y, s: nat ensures HasSlot(node, y, s) <==> s < |paths| && paths[s] == x + y {
      AtConcat(t, x, y);
      assert HasSlot(node, y, s) <==> HasSlot(t, x + y, s);
    }
    assert forall y, s: nat :: HasSlot(node, y, s) ==> s in Owned(paths, x);
    forall s | s in Owned(paths, x) ensures OwnsSlot(node, s) {
      assert paths[s] == x + paths[s][|x|..];
      assert HasSlot(node, paths[s][|x|..], s);
    }
  }
}
