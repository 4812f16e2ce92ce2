/** What the compiled vector holds: the slot-to-path map, one node per distinct path prefix. */
module ProjectionPlanContent {
  import opened Arithmetic
  import opened Json
  import opened ProjectionSpec
  import opened ProjectionTrie
  import opened ProjectionPlan
  import opened ProjectionPlanTree

  ghost predicate TerminalAt(nodes: seq<Node>, x: Path, slot: nat)
    requires Ordered(nodes) && 0 < |nodes|
  {
    Reach(nodes, 0, x).Some? && slot in nodes[Reach(nodes, 0, x).value].terminals
  }

  ghost predicate SlotsBelow(nodes: seq<Node>, bound: nat) {
    forall m, s :: 0 <= m < |nodes| && s in nodes[m].terminals ==> s < bound
  }

  // ---- Adding a terminal leaves the edges alone

  ghost predicate SameEdges(a: seq<Node>, b: seq<Node>) {
    && |a| == |b|
    && forall m :: 0 <= m < |a| ==> a[m].objectEdges == b[m].objectEdges && a[m].arrayEdges == b[m].arrayEdges
  }

  lemma {:induction false} SameEdgesSameReach(a: seq<Node>, b: seq<Node>, n: nat, x: Path)
    requires SameEdges(a, b) && Ordered(a) && Ordered(b) && n < |a|
    ensures Reach(a, n, x) == Reach(b, n, x)
    decreases |x|
  {
    if x != [] {
      assert FlatStep(a[n], x[0]) == FlatStep(b[n], x[0]);
      var c := FlatStep(a[n], x[0]);
      if c.Some? {
        SameEdgesSameReach(a, b, c.value, x[1..]);
      }
    }
  }

  lemma SameEdgesSameTree(p: PlanState, q: PlanState)
    requires Tree(p) && SameEdges(p.nodes, q.nodes) && Ordered(q.nodes) && q.objectEdges == p.objectEdges
    requires forall n :: 0 <= n < |q.nodes| ==> SortedNode(q.nodes[n])
    ensures Tree(q)
    ensures forall x :: Reach(q.nodes, 0, x) == Reach(p.nodes, 0, x)
  {
    forall x ensures Reach(q.nodes, 0, x) == Reach(p.nodes, 0, x) {
      SameEdgesSameReach(q.nodes, p.nodes, 0, x);
    }
    forall n: nat | n < |q.nodes| ensures Reached(q.nodes, n) {
      assert Reached(p.nodes, n);
    }
    assert forall n: nat, i: nat, id: nat :: HasFlag(q.nodes, n, i, id) == HasFlag(p.nodes, n, i, id);
  }

  lemma AddTerminalEffect(p: PlanState, base: Path, n: nat, slot: nat)
    requires Tree(p) && Reach(p.nodes, 0, base) == Some(n) && SlotsBelow(p.nodes, slot)
    ensures
      var r := AddTerminal(p, n, slot);
      && Tree(r)
      && (forall x :: Reach(r.nodes, 0, x) == Reach(p.nodes, 0, x))
      && (forall x, s: nat :: TerminalAt(r.nodes, x, s) <==> TerminalAt(p.nodes, x, s) || (x == base && s == slot))
      && SlotsBelow(r.nodes, slot + 1)
  {
    var r := AddTerminal(p, n, slot);
    var terminals := p.nodes[n].terminals;
    LastSlot(p, n, slot);
    SameEdgesSameTree(p, r);
    hide Tree, Reach, SlotPosition;
    forall x, s: nat
      ensures TerminalAt(r.nodes, x, s) <==> TerminalAt(p.nodes, x, s) || (x == base && s == slot)
    {
      if Reach(p.nodes, 0, x) == Some(n) {
        OnlyPathTo(p, base, x, n);
      }
    }
  }

  // A slot above all others goes last.
  lemma LastSlot(p: PlanState, n: nat, slot: nat)
    requires n < |p.nodes| && SlotsBelow(p.nodes, slot)
    ensures
      var terminals := p.nodes[n].terminals;
      && (forall j :: 0 <= j < |terminals| ==> terminals[j] < slot)
      && AddTerminal(p, n, slot).nodes == p.nodes[n := p.nodes[n].(terminals := terminals + [slot])]
  {
    var terminals := p.nodes[n].terminals;
    assert forall j :: 0 <= j < |terminals| ==> terminals[j] in p.nodes[n].terminals;
    assert SlotPosition(terminals, slot) == |terminals|;
    assert InsertAt(terminals, |terminals|, slot) == terminals + [slot];
  }

  lemma OnlyPathTo(p: PlanState, x: Path, y: Path, n: nat)
    requires Tree(p) && Reach(p.nodes, 0, x) == Some(n) && Reach(p.nodes, 0, y) == Some(n)
    ensures x == y
  {
  }

  // ---- Inserting one path

  ghost predicate Inserted(p: PlanState, r: PlanState, base: Path, path: Path, slot: nat)
    requires Ordered(p.nodes) && 0 < |p.nodes| && Ordered(r.nodes) && 0 < |r.nodes|
  {
    && (forall x :: Reach(p.nodes, 0, x).Some? ==> Reach(r.nodes, 0, x).Some?)
    && (forall x :: Reach(r.nodes, 0, x).Some? ==> Reach(p.nodes, 0, x).Some? || base <= x <= base + path)
    && (forall x, s: nat ::
          TerminalAt(r.nodes, x, s) <==> TerminalAt(p.nodes, x, s) || (x == base + path && s == slot))
  }

  lemma {:induction false} InsertPathEffect(p: PlanState, base: Path, n: nat, path: Path, depth: nat, slot: nat)
    requires Tree(p) && Reach(p.nodes, 0, base) == Some(n) && SlotsBelow(p.nodes, slot)
    ensures
      var r := InsertPath(p, n, path, depth, slot);
      Tree(r) && Inserted(p, r, base, path, slot) && SlotsBelow(r.nodes, slot + 1)
    decreases |path|
  {
    if path == [] {
      assert base + path == base;
      AddTerminalEffect(p, base, n, slot);
    } else {
      var g := path[0];
      var (q, c) := ChildFor(p, n, g);
      var q' := q.(maximumDepth := Max(q.maximumDepth, depth + 1));
      ChildForKeepsTree(p, base, n, g);
      assert Tree(q') by {
        assert forall m: nat, i: nat, id: nat :: HasFlag(q'.nodes, m, i, id) == HasFlag(q.nodes, m, i, id);
      }
      InsertPathEffect(q', base + [g], c, path[1..], depth + 1, slot);
      var r := InsertPath(q', c, path[1..], depth + 1, slot);
      InsertedThroughChild(p, q', r, base, path, slot);
    }
  }

  lemma InsertedThroughChild(p: PlanState, q: PlanState, r: PlanState, base: Path, path: Path, slot: nat)
    requires Ordered(p.nodes) && Ordered(q.nodes) && Ordered(r.nodes)
    requires 0 < |p.nodes| <= |q.nodes| && 0 < |r.nodes| && path != []
    requires forall x :: Reach(p.nodes, 0, x).Some? ==> Reach(q.nodes, 0, x) == Reach(p.nodes, 0, x)
    requires forall x :: Reach(q.nodes, 0, x).Some? ==> Reach(p.nodes, 0, x).Some? || x == base + [path[0]]
    requires forall m :: 0 <= m < |p.nodes| ==> q.nodes[m].terminals == p.nodes[m].terminals
    requires forall m :: |p.nodes| <= m < |q.nodes| ==> q.nodes[m].terminals == []
    requires
      Reach(q.nodes, 0, base + [path[0]]).Some? &&
      (Reach(p.nodes, 0, base + [path[0]]).None? ==> Reach(q.nodes, 0, base + [path[0]]).value >= |p.nodes|)
    requires Inserted(q, r, base + [path[0]], path[1..], slot)
    ensures Inserted(p, r, base, path, slot)
  {
    hide Reach;
    assert base + [path[0]] + path[1..] == base + path;
    forall x | Reach(r.nodes, 0, x).Some? ensures Reach(p.nodes, 0, x).Some? || base <= x <= base + path {
      if base + [path[0]] <= x {
        assert base <= x;
      }
    }
    forall x, s: nat ensures TerminalAt(q.nodes, x, s) <==> TerminalAt(p.nodes, x, s) {
    }
  }

  // ---- The whole plan

  ghost predicate IsPrefixOfSome(x: Path, paths: seq<Path>) {
    exists s :: 0 <= s < |paths| && x <= paths[s]
  }

  ghost predicate ContentIs(p: PlanState, paths: seq<Path>) {
    && Tree(p)
    && (forall x, s: nat :: TerminalAt(p.nodes, x, s) <==> s < |paths| && paths[s] == x)
    && (forall x :: Reach(p.nodes, 0, x).Some? <==> x == [] || IsPrefixOfSome(x, paths))
    && SlotsBelow(p.nodes, |paths|)
  }

  lemma {:induction false} ReachPrefix(nodes: seq<Node>, n: nat, x: Path, y: Path)
    requires Ordered(nodes) && n < |nodes| && Reach(nodes, n, x + y).Some?
    ensures Reach(nodes, n, x).Some?
    decreases |x|
  {
    if x != [] {
      assert (x + y)[1..] == x[1..] + y;
      ReachPrefix(nodes, FlatStep(nodes[n], x[0]).value, x[1..], y);
    }
  }

  /** The trie holds exactly the given paths, with one node for each distinct prefix. */
  lemma {:induction false} CompiledContent(paths: seq<Path>)
    ensures ContentIs(Compiled(paths), paths)
  {
    if paths == [] {
      forall x ensures Reach(ROOT_ONLY.nodes, 0, x) == if x == [] then Some(0) else None {
        LeafReachesItself(ROOT_ONLY.nodes, 0, x);
      }
      assert Reach(ROOT_ONLY.nodes, 0, []) == Some(0);
      assert Reached(ROOT_ONLY.nodes, 0);
    } else {
      var k := |paths| - 1;
      var before, path := paths[..k], paths[k];
      CompiledContent(before);
      var p := Compiled(before);
      InsertPathEffect(p, [], 0, path, 0, k);
      assert [] + path == path;
      var r := Compiled(paths);
      assert TerminalAt(r.nodes, path, k);
      hide Reach, Tree, Compiled, InsertPath;
      forall x ensures Reach(r.nodes, 0, x).Some? <==> x == [] || IsPrefixOfSome(x, paths) {
        ContentPrefix(p, r, paths, x);
      }
      forall x, s: nat ensures TerminalAt(r.nodes, x, s) <==> s < |paths| && paths[s] == x {
        assert TerminalAt(p.nodes, x, s) <==> s < |before| && before[s] == x;
      }
    }
  }

  lemma ContentPrefix(p: PlanState, r: PlanState, paths: seq<Path>, x: Path)
    requires paths != [] && ContentIs(p, paths[..|paths| - 1]) && Tree(r)
    requires Inserted(p, r, [], paths[|paths| - 1], |paths| - 1)
    ensures Reach(r.nodes, 0, x).Some? <==> x == [] || IsPrefixOfSome(x, paths)
  {
    var k := |paths| - 1;
    var before, path := paths[..k], paths[k];
    assert [] + path == path;
    assert TerminalAt(r.nodes, path, k);
    hide Tree;
    if x <= path {
      assert path == x + path[|x|..];
      ReachPrefix(r.nodes, 0, x, path[|x|..]);
    }
    assert IsPrefixOfSome(x, paths) <==> x <= path || IsPrefixOfSome(x, before) by {
      if IsPrefixOfSome(x, before) {
        var s :| 0 <= s < |before| && x <= before[s];
        assert x <= paths[s];
      }
      if s :| 0 <= s < |paths| && x <= paths[s] {
        assert s < k ==> x <= before[s];
      }
      assert x <= path ==> x <= paths[k];
    }
  }
}
