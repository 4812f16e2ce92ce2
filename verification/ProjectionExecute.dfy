/** Executing a published plan over a document or over one value, all or nothing. */
module ProjectionExecute {
  import opened Arithmetic
  import opened Json
  import opened Validation
  import opened ProjectionSpec
  import opened ProjectionTrie
  import opened ProjectionWalk
  import opened ProjectionSound
  import opened ProjectionCorrect
  import opened ProjectionPlan
  import opened ProjectionPlanTree
  import opened ProjectionPlanContent
  import opened ProjectionPlanMeta
  import opened ProjectionCompiler
  import opened ProjectionEngine

  class Document {
    const root: Value
    const cancellation: Cancellation
    var cursorClaimed: bool

    constructor (root: Value, cancellation: Cancellation)
      ensures this.root == root && this.cancellation == cancellation && !cursorClaimed
    {
      this.root := root;
      this.cancellation := cancellation;
      cursorClaimed := false;
    }
  }

  /** A plan as `PlanCreate` publishes it for the given path of each slot. */
  ghost predicate Published(plan: Plan, paths: seq<Path>)
    reads plan
  {
    && 0 < |paths| <= SLOT_UNAVAILABLE && plan.outputSlots == |paths|
    && (forall path :: path in paths ==> path != [])
    && plan.State() == Compiled(paths).(nodes := plan.nodes)
    && FinishedFrom(Compiled(paths), plan.nodes)
  }

  lemma CreatedIsPublished(plan: Plan, entries: seq<Entry>, segments: seq<RawSegment>, keyBytes: Bytes)
    requires Accepted(entries, segments, keyBytes) && plan.outputSlots == |entries|
    requires FinishedFrom(Compiled(PathsBySlot(entries, segments, keyBytes)), plan.nodes)
    requires plan.State() == Compiled(PathsBySlot(entries, segments, keyBytes)).(nodes := plan.nodes)
    ensures Published(plan, PathsBySlot(entries, segments, keyBytes))
  {
    var paths := PathsBySlot(entries, segments, keyBytes);
    forall path | path in paths ensures path != [] {
      var s :| 0 <= s < |paths| && paths[s] == path;
      EverySlotHasAnEntry(entries, s);
    }
  }

  lemma PublishedIsTrie(plan: Plan, paths: seq<Path>)
    requires Published(plan, paths)
    ensures Ordered(plan.nodes) && 0 < |plan.nodes|
    ensures Holds(plan.Root(), paths)
    ensures WellFormed(plan.Root(), |paths|, plan.objectEdges)
  {
    CompiledContent(paths);
    PlanIsTrie(Compiled(paths), plan.nodes, paths);
  }

  // ---- The root of a document

  lemma RootFirst(t: Trie, paths: seq<Path>, edgeCount: nat)
    requires WellFormed(t, |paths|, edgeCount) && Holds(t, paths)
    requires forall path :: path in paths ==> path != []
    ensures t.terminals == []
    ensures t.first == Min(FirstOfObjectEdges(t.objectEdges), FirstOfArrayEdges(t.arrayEdges))
  {
    assert At(t, []).Some?;
    assert GoodNode(t, |paths|, edgeCount);
    RootHasNoTerminal(t, paths);
    EdgesHaveGoodFirst(t, |paths|, edgeCount);
    FirstOfObjectEdgesIsLeast(t.objectEdges);
    FirstOfArrayEdgesIsLeast(t.arrayEdges);
    OwnedByEdges(t, t.first);
    OwnedByEdges(t, FirstOfObjectEdges(t.objectEdges));
    OwnedByEdges(t, FirstOfArrayEdges(t.arrayEdges));
    forall s | OwnsSlot(t, s) ensures t.first <= s {
      var path :| HasSlot(t, path, s);
    }
  }

  lemma RootHasNoTerminal(t: Trie, paths: seq<Path>)
    requires Holds(t, paths)
    requires forall path :: path in paths ==> path != []
    ensures t.terminals == []
  {
    forall s: nat ensures s !in t.terminals {
      assert HasSlot(t, [], s) <==> s < |paths| && paths[s] == [];
      assert s < |paths| ==> paths[s] in paths;
    }
    EmptyOrMember(t.terminals);
  }

  lemma EmptyOrMember(slots: seq<nat>)
    ensures slots == [] || exists s: nat :: s in slots
  {
    if slots != [] {
      assert slots[0] in slots;
    }
  }

  lemma OwnedByEdges(t: Trie, s: nat)
    requires SortedEdges(t) && t.terminals == []
    ensures OwnsSlot(t, s) <==> ObjectEdgesOwn(t.objectEdges, s) || ArrayEdgesOwn(t.arrayEdges, s)
  {
    if OwnsSlot(t, s) {
      var path :| HasSlot(t, path, s);
      assert HasSlot(Step(t, path[0]).value, path[1..], s);
      match path[0] {
        case Key(key) =>
          var e := t.objectEdges[FindKey(t.objectEdges, key)];
          assert e in t.objectEdges && OwnsSlot(e.child, s);
        case Index(index) =>
          var e := t.arrayEdges[FindIndex(t.arrayEdges, index)];
          assert e in t.arrayEdges && OwnsSlot(e.child, s);
      }
    }
    if ObjectEdgesOwn(t.objectEdges, s) {
      var e :| e in t.objectEdges && OwnsSlot(e.child, s);
      var i :| 0 <= i < |t.objectEdges| && t.objectEdges[i] == e;
      EdgeStep(t, i);
      var path :| HasSlot(e.child, path, s);
      AtCons(t, Key(e.key), path);
      assert HasSlot(t, [Key(e.key)] + path, s);
    }
    if ArrayEdgesOwn(t.arrayEdges, s) {
      var e :| e in t.arrayEdges && OwnsSlot(e.child, s);
      var i :| 0 <= i < |t.arrayEdges| && t.arrayEdges[i] == e;
      ElementStep(t, i);
      var path :| HasSlot(e.child, path, s);
      AtCons(t, Index(e.index), path);
      assert HasSlot(t, [Index(e.index)] + path, s);
    }
  }

  /** Walking a whole document is walking its root value at depth one: with no empty path, a scalar
    * root blames the same slot either way. */
  lemma DocumentWalkIsValueWalk(v: Value, t: Trie, paths: seq<Path>, st: WalkState, edgeCount: nat)
    requires WellFormed(t, |paths|, edgeCount) && Holds(t, paths)
    requires forall path :: path in paths ==> path != []
    ensures WalkDocument(v, t, st) == WalkValue(v, t, st, 1)
  {
    RootFirst(t, paths, edgeCount);
  }

  // ---- Execution

  function EmptySlots(count: nat): (r: seq<Slot>)
    ensures |r| == count && forall i :: 0 <= i < count ==> r[i] == Empty
  {
    seq(count, _ => Empty)
  }

  /** What a caller sees of one execution over `v`. */
  ghost predicate Executed(v: Value, paths: seq<Path>, status: Status, slots: seq<Slot>) {
    && |slots| == |paths|
    && (status.code == OK <==> HardFailure(v, 1).None? && AllFound(v, paths))
    && (status.code == OK ==> forall s: nat :: s < |paths| ==> Lookup(v, paths[s]) == Found(slots[s]))
    && (status.code == OK ==> forall s: nat :: s < |paths| ==> Means(v, paths[s], slots[s]))
    && (status.code != OK ==> slots == EmptySlots(|paths|))
    && (HardFailure(v, 1).Some? ==> status.code == HardFailure(v, 1).value)
    && (HardFailure(v, 1).None? && !AllFound(v, paths) ==>
          Projects(v, paths, PathFailure(Failure(status.code, status.slot))))
  }

  method ClearResultSlots(resultSlots: array<Slot>)
    modifies resultSlots
    ensures resultSlots[..] == EmptySlots(resultSlots.Length)
  {
    for i := 0 to resultSlots.Length
      invariant forall j :: 0 <= j < i ==> resultSlots[j] == Empty
    {
      resultSlots[i] := Empty;
    }
  }

  method NewTraversal(plan: Plan, resultSlots: array<Slot>, cancellation: Cancellation, ghost paths: seq<Path>)
    returns (traversal: Traversal)
    requires Published(plan, paths) && resultSlots.Length == |paths|
    requires resultSlots[..] == EmptySlots(|paths|)
    ensures fresh(traversal) && fresh(traversal.satisfied)
    ensures traversal.resultSlots == resultSlots && traversal.cancellation == cancellation
    ensures traversal.satisfied.Length == plan.objectEdges && traversal.Valid()
    ensures traversal.State() == Fresh(|paths|, plan.objectEdges)
  {
    var satisfied := new bool[plan.objectEdges](_ => false);
    traversal := new Traversal(cancellation, resultSlots, satisfied);
    assert satisfied[..] == seq(plan.objectEdges, _ => false);
  }

  // Turns the end of a traversal into a status: a pending path failure, or the check that every
  // slot was filled, and clears the slots of a failed execution.
  method Finish(traversal: Traversal, status: Status, ghost v: Value, ghost t: Trie, ghost paths: seq<Path>)
    returns (final: Status)
    requires WellFormed(t, |paths|, traversal.satisfied.Length) && Holds(t, paths)
    requires traversal.resultSlots.Length == |paths|
    requires status.code == Cancelled ||
             traversal.Follows(status, WalkValue(v, t, Fresh(|paths|, traversal.satisfied.Length), 1))
    modifies traversal.resultSlots
    ensures final.code == Cancelled <==> status.code == Cancelled
    ensures final.code == Cancelled ==> traversal.resultSlots[..] == EmptySlots(|paths|)
    ensures final.code != Cancelled ==> Executed(v, paths, final, traversal.resultSlots[..])
  {
    final := status;
    if status.code == OK && traversal.pending.Some? {
      final := Status(traversal.pending.value.code, traversal.pending.value.slot);
    }
    if status.code != Cancelled {
      WalkIsProjection(v, t, paths, traversal.satisfied.Length, 1);
      forall s: nat | s < |paths| ensures forall x :: Lookup(v, paths[s]) == Found(x) ==> Means(v, paths[s], x) {
        FoundMeans(v, paths[s]);
      }
    }
    if final.code == OK {
      var unfilled := AnyEmpty(traversal.resultSlots);
      final := if unfilled then Status(InternalFailure, SLOT_UNAVAILABLE) else final;
    }
    if final.code != OK {
      ClearResultSlots(traversal.resultSlots);
    }
  }

  method AnyEmpty(resultSlots: array<Slot>) returns (empty: bool)
    ensures empty <==> Empty in resultSlots[..]
  {
    empty := false;
    for i := 0 to resultSlots.Length
      invariant empty <==> Empty in resultSlots[..i]
    {
      if resultSlots[i] == Empty {
        empty := true;
      }
    }
  }

  /** Executes a plan over a whole document. A second execution of the same document is refused,
    * and whatever goes wrong the caller sees no slot. */
  method Execute(document: Document, plan: Plan, resultSlots: array<Slot>, ghost paths: seq<Path>)
    returns (status: Status)
    requires Published(plan, paths)
    modifies document, document.cancellation, resultSlots
    ensures resultSlots.Length != |paths| ==>
              status.code == InvalidArgument && resultSlots[..] == old(resultSlots[..])
              && document.cursorClaimed == old(document.cursorClaimed)
    ensures resultSlots.Length == |paths| ==>
              && (status.code == Cancelled <==>
                    !document.cancellation.QuietSince(old(document.cancellation.checks)))
              && (status.code != OK ==> resultSlots[..] == EmptySlots(|paths|))
              && (status.code != Cancelled ==> document.cursorClaimed)
              && (status.code != Cancelled && old(document.cursorClaimed) ==> status.code == CursorConsumed)
              && (status.code != Cancelled && !old(document.cursorClaimed) ==>
                    Executed(document.root, paths, status, resultSlots[..]))
  {
    if resultSlots.Length != plan.outputSlots {
      return Status(InvalidArgument, SLOT_UNAVAILABLE);
    }
    ClearResultSlots(resultSlots);
    status := ExecuteOnce(document, plan, resultSlots, paths);
  }

  method ExecuteOnce(document: Document, plan: Plan, resultSlots: array<Slot>, ghost paths: seq<Path>)
    returns (status: Status)
    requires Published(plan, paths) && resultSlots.Length == |paths|
    requires resultSlots[..] == EmptySlots(|paths|)
    modifies document, document.cancellation, resultSlots
    ensures status.code == Cancelled <==> !document.cancellation.QuietSince(old(document.cancellation.checks))
    ensures status.code != OK ==> resultSlots[..] == EmptySlots(|paths|)
    ensures status.code != Cancelled ==> document.cursorClaimed
    ensures status.code != Cancelled && old(document.cursorClaimed) ==> status.code == CursorConsumed
    ensures status.code != Cancelled && !old(document.cursorClaimed) ==>
              Executed(document.root, paths, status, resultSlots[..])
  {
    hide Published, EmptySlots;
    var traversal := NewTraversal(plan, resultSlots, document.cancellation, paths);
    var cancelled := document.cancellation.Requested();
    if cancelled {
      return STATUS_CANCELLED;
    }
    if document.cursorClaimed {
      return Status(CursorConsumed, SLOT_UNAVAILABLE);
    }
    document.cursorClaimed := true;
    status := ExecuteClaimed(document.root, plan, traversal, paths);
  }

  method ExecuteClaimed(v: Value, plan: Plan, traversal: Traversal, ghost paths: seq<Path>) returns (status: Status)
    requires Published(plan, paths) && traversal.Valid()
    requires traversal.resultSlots.Length == |paths| && traversal.satisfied.Length == plan.objectEdges
    requires traversal.State() == Fresh(|paths|, plan.objectEdges)
    modifies traversal, traversal.cancellation, traversal.resultSlots, traversal.satisfied
    ensures old(traversal.cancellation.checks) <= traversal.cancellation.checks
    ensures status.code != Cancelled <==> traversal.cancellation.QuietSince(old(traversal.cancellation.checks))
    ensures status.code == Cancelled ==> traversal.resultSlots[..] == EmptySlots(|paths|)
    ensures status.code != Cancelled ==> Executed(v, paths, status, traversal.resultSlots[..])
  {
    PublishedIsTrie(plan, paths);
    var root := plan.Root();
    DocumentWalkIsValueWalk(v, root, paths, traversal.State(), plan.objectEdges);
    status := traversal.TraverseDocument(v, root);
    status := Finish(traversal, status, v, root, paths);
  }

  /** Executes a plan over one value, as streaming does for every row. */
  method ExecuteValue(v: Value, plan: Plan, resultSlots: array<Slot>, cancellation: Cancellation,
                      ghost paths: seq<Path>)
    returns (status: Status)
    requires Published(plan, paths)
    modifies cancellation, resultSlots
    ensures resultSlots.Length != |paths| ==>
              status.code == InvalidArgument && resultSlots[..] == old(resultSlots[..])
    ensures resultSlots.Length == |paths| ==>
              && (status.code == Cancelled <==> !cancellation.QuietSince(old(cancellation.checks)))
              && (status.code == Cancelled ==> resultSlots[..] == EmptySlots(|paths|))
              && (status.code != Cancelled ==> Executed(v, paths, status, resultSlots[..]))
  {
    if resultSlots.Length != plan.outputSlots {
      return Status(InvalidArgument, SLOT_UNAVAILABLE);
    }
    ClearResultSlots(resultSlots);
    var traversal := NewTraversal(plan, resultSlots, cancellation, paths);
    PublishedIsTrie(plan, paths);
    var root := plan.Root();
    status := traversal.TraverseValue(v, root, 1);
    status := Finish(traversal, status, v, root, paths);
  }
}
