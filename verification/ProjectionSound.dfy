/** The guided walk does exactly what independent lookups say, by induction over the document. */
module ProjectionSound {
  import opened Arithmetic
  import opened Json
  import opened Validation
  import opened ProjectionSpec
  import opened ProjectionTrie
  import opened ProjectionWalk
  import opened ProjectionEffect

  // ---- One step of a lookup

  ghost function StepFailure(v: Value, g: Segment): StatusCode {
    if g.Key? && v.Object? then MissingField
    else if g.Index? && v.Array? then IndexOutOfBounds
    else IncorrectType
  }

  ghost predicate HiddenStep(v: Value, t: Trie, g: Segment) {
    && v.Array? && g.Index?
    && exists e :: e in t.arrayEdges && |v.elements| <= e.index < g.index
  }

  lemma LookupStep(v: Value, t: Trie, path: Path)
    requires path != []
    ensures Lookup(v, path) == if Child(v, path[0]).Some? then Lookup(Child(v, path[0]).value, path[1..])
                               else Failed(StepFailure(v, path[0]))
    ensures Hidden(v, t, path) ==
            if BothStep(v, t, path[0])
            then Hidden(Child(v, path[0]).value, Step(t, path[0]).value, path[1..])
            else HiddenStep(v, t, path[0])
  {
  }

  // ---- The seen failures of a node, grouped as the engine records them

  ghost predicate TerminalSeen(v: Value, t: Trie, f: Failure) {
    v.Container() && f.code == IncorrectType && f.slot in t.terminals
  }

  ghost predicate StuckAt(v: Value, t: Trie, g: Segment, f: Failure) {
    && Step(t, g).Some? && Child(v, g).None? && !HiddenStep(v, t, g)
    && f.code == StepFailure(v, g)
    && OwnsSlot(Step(t, g).value, f.slot)
  }

  ghost predicate Stuck(v: Value, t: Trie, f: Failure) {
    exists g :: StuckAt(v, t, g, f)
  }

  lemma FoundUnfolds(v: Value, t: Trie, w: (nat, Slot))
    requires v.Container()
    ensures FoundIn(v, t, w) <==> FoundBelow(v, t, w)
  {
    if FoundIn(v, t, w) {
      var path :| FoundAt(v, t, path, w.0, w.1);
      LookupStep(v, t, path);
      var g := path[0];
      assert FoundAt(Child(v, g).value, Step(t, g).value, path[1..], w.0, w.1);
      assert w in EffectOf(Child(v, g).value, Step(t, g).value).found;
      assert BothStep(v, t, g) && w in EdgeEffect(Child(v, g).value, t, g).found;
    }
    if FoundBelow(v, t, w) {
      var g :| BothStep(v, t, g) && w in EdgeEffect(Child(v, g).value, t, g).found;
      var path :| FoundAt(Child(v, g).value, Step(t, g).value, path, w.0, w.1);
      AtCons(t, g, path);
      assert ([g] + path)[1..] == path;
      LookupStep(v, t, [g] + path);
      assert FoundAt(v, t, [g] + path, w.0, w.1);
    }
  }

  lemma SeenUnfolds(v: Value, t: Trie, f: Failure)
    requires !v.Container() ==> ScalarFailure(v).None?
    ensures SeenIn(v, t, f) <==> TerminalSeen(v, t, f) || SeenBelow(v, t, f) || Stuck(v, t, f)
  {
    if SeenIn(v, t, f) {
      var path :| SeenAt(v, t, path, f);
      SeenSomewhere(v, t, path, f);
    }
    if TerminalSeen(v, t, f) {
      assert SeenAt(v, t, [], f);
    }
    if SeenBelow(v, t, f) {
      SeenFromBelow(v, t, f);
    }
    if Stuck(v, t, f) {
      SeenFromStuck(v, t, f);
    }
  }

  lemma SeenFromBelow(v: Value, t: Trie, f: Failure)
    requires SeenBelow(v, t, f)
    ensures SeenIn(v, t, f)
  {
    hide EdgeEffect, Lookup, Hidden, HasSlot, Child, Step;
    var g :| BothStep(v, t, g) && f in EdgeEffect(Child(v, g).value, t, g).seen;
    SeenUnderEdge(Child(v, g).value, t, g, f);
    var path :| SeenAt(Child(v, g).value, Step(t, g).value, path, f);
    SeenIsSlot(Child(v, g).value, Step(t, g).value, path, f);
    SeenUnderStep(v, t, g, path, f);
  }

  lemma SeenUnderEdge(x: Value, t: Trie, g: Segment, f: Failure)
    requires Step(t, g).Some? && f in EdgeEffect(x, t, g).seen
    ensures exists path :: SeenAt(x, Step(t, g).value, path, f)
  {
    hide Lookup, Hidden, HasSlot;
    assert SeenIn(x, Step(t, g).value, f);
  }

  lemma SeenIsSlot(v: Value, t: Trie, path: Path, f: Failure)
    requires SeenAt(v, t, path, f)
    ensures HasSlot(t, path, f.slot)
  {
  }

  lemma SeenFromStuck(v: Value, t: Trie, f: Failure)
    requires Stuck(v, t, f)
    ensures SeenIn(v, t, f)
  {
    var g :| StuckAt(v, t, g, f);
    var path :| HasSlot(Step(t, g).value, path, f.slot);
    SeenUnderStep(v, t, g, path, f);
  }

  lemma SeenSomewhere(v: Value, t: Trie, path: Path, f: Failure)
    requires !v.Container() ==> ScalarFailure(v).None?
    requires SeenAt(v, t, path, f)
    ensures TerminalSeen(v, t, f) || SeenBelow(v, t, f) || Stuck(v, t, f)
  {
    if path != [] {
      LookupStep(v, t, path);
      var g := path[0];
      if BothStep(v, t, g) {
        assert SeenAt(Child(v, g).value, Step(t, g).value, path[1..], f);
        assert f in EffectOf(Child(v, g).value, Step(t, g).value).seen;
        assert BothStep(v, t, g) && f in EdgeEffect(Child(v, g).value, t, g).seen;
      } else {
        assert HasSlot(Step(t, g).value, path[1..], f.slot);
        assert StuckAt(v, t, g, f);
      }
    }
  }

  lemma SeenUnderStep(v: Value, t: Trie, g: Segment, path: Path, f: Failure)
    requires Step(t, g).Some? && HasSlot(Step(t, g).value, path, f.slot)
    requires StuckAt(v, t, g, f)
             || (Child(v, g).Some? && SeenAt(Child(v, g).value, Step(t, g).value, path, f))
    ensures SeenAt(v, t, [g] + path, f)
  {
    AtCons(t, g, path);
    assert ([g] + path)[1..] == path;
    LookupStep(v, t, [g] + path);
  }

  lemma MarkedUnfolds(v: Value, t: Trie, id: nat)
    requires MarkedBelow(v, t, id)
    ensures OwnsEdge(t, id)
  {
    var g :| BothStep(v, t, g) && id in EdgeEffect(Child(v, g).value, t, g).marked;
    hide OwnsEdge, FindKey;
    if EdgeOf(t, g, id) {
      OwnEdgeIsOwned(t, g, id);
    } else {
      ChildOwnsEdge(t, g, id);
    }
  }

  lemma OwnEdgeIsOwned(t: Trie, g: Segment, id: nat)
    requires EdgeOf(t, g, id)
    ensures OwnsEdge(t, id)
  {
    assert HasEdge(t, [], FindKey(t.objectEdges, g.key), id);
  }

  lemma ChildOwnsEdge(t: Trie, g: Segment, id: nat)
    requires Step(t, g).Some? && OwnsEdge(Step(t, g).value, id)
    ensures OwnsEdge(t, id)
  {
    var path, i: nat :| HasEdge(Step(t, g).value, path, i, id);
    AtCons(t, g, path);
    assert HasEdge(t, [g] + path, i, id);
  }

  // ---- Least slots of groups of edges

  ghost predicate GoodFirst(t: Trie) {
    FirstIsLeast(t) && t.first < SLOT_UNAVAILABLE
  }

  lemma ChildHasGoodFirst(t: Trie, g: Segment, slotCount: nat, edgeCount: nat)
    requires WellFormed(t, slotCount, edgeCount) && Step(t, g).Some?
    ensures GoodFirst(Step(t, g).value)
  {
    var child := Step(t, g).value;
    ChildIsWellFormed(t, g, slotCount, edgeCount);
    assert At(child, []).Some?;
    var path :| HasSlot(child, path, child.first);
    assert GoodNode(At(child, path).value, slotCount, edgeCount);
  }

  lemma EdgesHaveGoodFirst(t: Trie, slotCount: nat, edgeCount: nat)
    requires WellFormed(t, slotCount, edgeCount)
    ensures SortedEdges(t)
    ensures forall e :: e in t.objectEdges ==> GoodFirst(e.child)
    ensures forall e :: e in t.arrayEdges ==> GoodFirst(e.child)
  {
    assert At(t, []).Some?;
    forall e | e in t.objectEdges ensures GoodFirst(e.child) {
      var i :| 0 <= i < |t.objectEdges| && t.objectEdges[i] == e;
      EdgeStep(t, i);
      ChildHasGoodFirst(t, Key(e.key), slotCount, edgeCount);
    }
    forall e | e in t.arrayEdges ensures GoodFirst(e.child) {
      var i :| 0 <= i < |t.arrayEdges| && t.arrayEdges[i] == e;
      ElementStep(t, i);
      ChildHasGoodFirst(t, Index(e.index), slotCount, edgeCount);
    }
  }

  ghost predicate ObjectEdgesOwn(edges: seq<ObjectEdge>, slot: nat) {
    exists e :: e in edges && OwnsSlot(e.child, slot)
  }

  ghost predicate ArrayEdgesOwn(edges: seq<ArrayEdge>, slot: nat) {
    exists e :: e in edges && OwnsSlot(e.child, slot)
  }

  lemma {:induction false} FirstOfObjectEdgesIsLeast(edges: seq<ObjectEdge>)
    requires forall e :: e in edges ==> GoodFirst(e.child)
    ensures edges == [] <==> FirstOfObjectEdges(edges) == SLOT_UNAVAILABLE
    ensures edges != [] ==> ObjectEdgesOwn(edges, FirstOfObjectEdges(edges))
    ensures forall s :: ObjectEdgesOwn(edges, s) ==> FirstOfObjectEdges(edges) <= s
  {
    if edges != [] {
      FirstOfObjectEdgesIsLeast(edges[1..]);
      assert edges == [edges[0]] + edges[1..];
      assert forall e :: e in edges[1..] ==> e in edges;
      forall s | ObjectEdgesOwn(edges, s) ensures FirstOfObjectEdges(edges) <= s {
        var e :| e in edges && OwnsSlot(e.child, s);
        var p :| HasSlot(e.child, p, s);
        assert e == edges[0] || ObjectEdgesOwn(edges[1..], s);
      }
    }
  }

  lemma {:induction false} FirstOfArrayEdgesIsLeast(edges: seq<ArrayEdge>)
    requires forall e :: e in edges ==> GoodFirst(e.child)
    ensures edges == [] <==> FirstOfArrayEdges(edges) == SLOT_UNAVAILABLE
    ensures edges != [] ==> ArrayEdgesOwn(edges, FirstOfArrayEdges(edges))
    ensures forall s :: ArrayEdgesOwn(edges, s) ==> FirstOfArrayEdges(edges) <= s
  {
    if edges != [] {
      FirstOfArrayEdgesIsLeast(edges[1..]);
      assert edges == [edges[0]] + edges[1..];
      assert forall e :: e in edges[1..] ==> e in edges;
      forall s | ArrayEdgesOwn(edges, s) ensures FirstOfArrayEdges(edges) <= s {
        var e :| e in edges && OwnsSlot(e.child, s);
        var p :| HasSlot(e.child, p, s);
        assert e == edges[0] || ArrayEdgesOwn(edges[1..], s);
      }
    }
  }

  // ---- Entering a node records the mismatches its type causes

  ghost function TerminalGroup(t: Trie): iset<Failure> {
    iset f: Failure | f.code == IncorrectType && f.slot in t.terminals
  }

  ghost function ObjectGroup(t: Trie): iset<Failure> {
    iset f: Failure | f.code == IncorrectType && ObjectEdgesOwn(t.objectEdges, f.slot)
  }

  ghost function ArrayGroup(t: Trie): iset<Failure> {
    iset f: Failure | f.code == IncorrectType && ArrayEdgesOwn(t.arrayEdges, f.slot)
  }

  // The slot is the least of the type failures in `seen`, or there are none.
  ghost predicate Leads(slot: nat, seen: iset<Failure>) {
    && slot <= SLOT_UNAVAILABLE && (slot == SLOT_UNAVAILABLE ==> seen == iset{})
    && (slot != SLOT_UNAVAILABLE ==> Failure(IncorrectType, slot) in seen)
    && (forall f :: f in seen ==> slot <= f.slot)
  }

  lemma GroupsAreLed(t: Trie, slotCount: nat, edgeCount: nat)
    requires WellFormed(t, slotCount, edgeCount)
    ensures Leads(FirstTerminal(t), TerminalGroup(t))
    ensures Leads(FirstOfObjectEdges(t.objectEdges), ObjectGroup(t))
    ensures Leads(FirstOfArrayEdges(t.arrayEdges), ArrayGroup(t))
  {
    EdgesHaveGoodFirst(t, slotCount, edgeCount);
    FirstOfObjectEdgesIsLeast(t.objectEdges);
    FirstOfArrayEdgesIsLeast(t.arrayEdges);
    assert At(t, []).Some?;
    assert GoodNode(t, slotCount, edgeCount);
    hide WellFormed, At, OwnsSlot, OwnsEdge;
    TerminalsAreLed(t);
  }

  lemma TerminalsAreLed(t: Trie)
    requires forall i, j :: 0 <= i < j < |t.terminals| ==> t.terminals[i] < t.terminals[j]
    requires forall s :: s in t.terminals ==> s < SLOT_UNAVAILABLE
    ensures Leads(FirstTerminal(t), TerminalGroup(t))
  {
    assert t.terminals != [] ==> t.terminals[0] in t.terminals;
  }

  lemma RecordLed(pending: Option<Failure>, slot: nat, seen: iset<Failure>)
    requires Leads(slot, seen)
    ensures Accounts(pending, Record(pending, IncorrectType, slot), seen)
  {
    RecordAccounts(pending, IncorrectType, slot, seen);
  }

  lemma LeadsBoth(a: nat, s: iset<Failure>, b: nat, t: iset<Failure>)
    requires Leads(a, s) && Leads(b, t)
    ensures Leads(Min(a, b), s + t)
  {
  }

  lemma EnterAccounts(t: Trie, st: WalkState, slotCount: nat, edgeCount: nat)
    requires WellFormed(t, slotCount, edgeCount)
    ensures Accounts(st.pending, EnterObject(t, st).pending, TerminalGroup(t) + ArrayGroup(t))
    ensures Accounts(st.pending, EnterArray(t, st).pending, TerminalGroup(t) + ObjectGroup(t))
    ensures Accounts(st.pending, EnterScalar(t, st).pending, ObjectGroup(t) + ArrayGroup(t))
  {
    hide WellFormed, TerminalGroup, ObjectGroup, ArrayGroup, Leads, Accounts, Record, FirstTerminal;
    GroupsAreLed(t, slotCount, edgeCount);
    var objects, arrays := FirstOfObjectEdges(t.objectEdges), FirstOfArrayEdges(t.arrayEdges);
    var p1 := Record(st.pending, IncorrectType, FirstTerminal(t));
    RecordLed(st.pending, FirstTerminal(t), TerminalGroup(t));
    RecordLed(p1, arrays, ArrayGroup(t));
    RecordLed(p1, objects, ObjectGroup(t));
    AccountsTwice(st.pending, p1, EnterObject(t, st).pending, TerminalGroup(t), ArrayGroup(t));
    AccountsTwice(st.pending, p1, EnterArray(t, st).pending, TerminalGroup(t), ObjectGroup(t));
    LeadsBoth(objects, ObjectGroup(t), arrays, ArrayGroup(t));
    RecordLed(st.pending, Min(objects, arrays), ObjectGroup(t) + ArrayGroup(t));
  }

  // ---- Which stuck steps each type of value causes

  ghost predicate StuckObjectEdge(v: Value, e: ObjectEdge, f: Failure) {
    && Child(v, Key(e.key)).None?
    && f.code == StepFailure(v, Key(e.key))
    && OwnsSlot(e.child, f.slot)
  }

  ghost predicate StuckArrayEdge(v: Value, t: Trie, e: ArrayEdge, f: Failure) {
    && Child(v, Index(e.index)).None?
    && !HiddenStep(v, t, Index(e.index))
    && f.code == StepFailure(v, Index(e.index))
    && OwnsSlot(e.child, f.slot)
  }

  lemma StuckAtEdges(v: Value, t: Trie, f: Failure)
    requires SortedEdges(t)
    ensures Stuck(v, t, f) <==>
            || (exists e :: e in t.objectEdges && StuckObjectEdge(v, e, f))
            || (exists e :: e in t.arrayEdges && StuckArrayEdge(v, t, e, f))
  {
    hide OwnsSlot, StepFailure, Child;
    if Stuck(v, t, f) {
      var g :| StuckAt(v, t, g, f);
      if g.Key? {
        var e := t.objectEdges[FindKey(t.objectEdges, g.key)];
        assert e in t.objectEdges && StuckObjectEdge(v, e, f);
      } else {
        var e := t.arrayEdges[FindIndex(t.arrayEdges, g.index)];
        assert e in t.arrayEdges && StuckArrayEdge(v, t, e, f);
      }
    }
    if e :| e in t.objectEdges && StuckObjectEdge(v, e, f) {
      var i :| 0 <= i < |t.objectEdges| && t.objectEdges[i] == e;
      EdgeStep(t, i);
      assert StuckAt(v, t, Key(e.key), f);
    }
    if e :| e in t.arrayEdges && StuckArrayEdge(v, t, e, f) {
      var i :| 0 <= i < |t.arrayEdges| && t.arrayEdges[i] == e;
      ElementStep(t, i);
      assert StuckAt(v, t, Index(e.index), f);
    }
  }

  lemma StuckByType(v: Value, t: Trie, f: Failure)
    requires SortedEdges(t)
    ensures !v.Container() ==> (Stuck(v, t, f) <==> f in ObjectGroup(t) + ArrayGroup(t))
    ensures v.Object? ==> (Stuck(v, t, f) <==> f in ArrayGroup(t) || MissingAt(v.fields, t.objectEdges, f))
    ensures v.Array? ==> (Stuck(v, t, f) <==> f in ObjectGroup(t) || TooShortAt(|v.elements|, t, f))
  {
    hide OwnsSlot, SortedEdges, Stuck;
    StuckAtEdges(v, t, f);
    if v.Object? {
      assert forall e :: StuckObjectEdge(v, e, f) <==>
          f.code == MissingField && FirstField(v.fields, e.key).None? && OwnsSlot(e.child, f.slot);
      assert forall e :: StuckArrayEdge(v, t, e, f) <==> f.code == IncorrectType && OwnsSlot(e.child, f.slot);
    } else if v.Array? {
      assert forall e :: StuckObjectEdge(v, e, f) <==> f.code == IncorrectType && OwnsSlot(e.child, f.slot);
      assert forall e :: StuckArrayEdge(v, t, e, f) <==>
          && f.code == IndexOutOfBounds && |v.elements| <= e.index && OwnsSlot(e.child, f.slot)
          && forall d :: d in t.arrayEdges && |v.elements| <= d.index ==> e.index <= d.index;
    } else {
      assert forall e :: StuckObjectEdge(v, e, f) <==> f.code == IncorrectType && OwnsSlot(e.child, f.slot);
      assert forall e :: StuckArrayEdge(v, t, e, f) <==> f.code == IncorrectType && OwnsSlot(e.child, f.slot);
    }
  }

  ghost predicate MissingAt(fields: seq<Field>, edges: seq<ObjectEdge>, f: Failure) {
    && f.code == MissingField
    && exists e :: e in edges && FirstField(fields, e.key).None? && OwnsSlot(e.child, f.slot)
  }

  // Only the smallest index beyond the end of the array.
  ghost predicate TooShortAt(length: nat, t: Trie, f: Failure) {
    && f.code == IndexOutOfBounds
    && exists e :: e in t.arrayEdges && length <= e.index && OwnsSlot(e.child, f.slot)
         && forall d :: d in t.arrayEdges && length <= d.index ==> e.index <= d.index
  }

  // ---- Scalars

  lemma {:induction false} FillEffect(st: WalkState, terminals: seq<nat>, slot: Slot)
    requires |st.slots| == |st.writes|
    requires forall s :: s in terminals ==> s < |st.slots|
    requires forall i, j :: 0 <= i < j < |terminals| ==> terminals[i] < terminals[j]
    ensures
      var after := Fill(st, terminals, slot);
      && |after.slots| == |st.slots| == |after.writes|
      && after.pending == st.pending && after.satisfied == st.satisfied
      && (forall s: nat :: s < |st.slots| ==> FilledAt(st, after, terminals, slot, s))
    decreases |terminals|
  {
    if terminals != [] {
      var s := terminals[0];
      assert s in terminals;
      var st' := st.(slots := st.slots[s := slot], writes := st.writes[s := st.writes[s] + 1]);
      assert terminals == [s] + terminals[1..];
      assert s !in terminals[1..];
      assert forall x :: x in terminals[1..] ==> x in terminals;
      FillEffect(st', terminals[1..], slot);
      var after := Fill(st', terminals[1..], slot);
      forall x: nat | x < |st.slots| ensures FilledAt(st, after, terminals, slot, x) {
        assert FilledAt(st', after, terminals[1..], slot, x);
      }
    }
  }

  // Slot `s` was written once if it is among the terminals, and otherwise left alone.
  ghost predicate FilledAt(st: WalkState, after: WalkState, terminals: seq<nat>, slot: Slot, s: nat)
    requires s < |st.slots| == |after.slots| && |st.writes| == |after.writes| == |st.slots|
  {
    if s in terminals then after.slots[s] == slot && after.writes[s] == st.writes[s] + 1
    else after.slots[s] == st.slots[s] && after.writes[s] == st.writes[s]
  }

  lemma ScalarEffectIs(v: Value, t: Trie)
    requires !v.Container() && ScalarFailure(v).None? && SortedEdges(t)
    ensures EffectOf(v, t).seen == ObjectGroup(t) + ArrayGroup(t)
    ensures EffectOf(v, t).found == iset w: (nat, Slot) | w.0 in t.terminals && w.1 == SlotOf(v)
  {
    hide SortedEdges, ScalarFailure, SlotOf;
    forall f ensures f in EffectOf(v, t).seen <==> f in ObjectGroup(t) + ArrayGroup(t) {
      SeenUnfolds(v, t, f);
      StuckByType(v, t, f);
    }
    forall w: (nat, Slot) ensures FoundIn(v, t, w) <==> w.0 in t.terminals && w.1 == SlotOf(v) {
      if w.0 in t.terminals && w.1 == SlotOf(v) {
        assert FoundAt(v, t, [], w.0, w.1);
      }
    }
  }

  lemma FillWrites(st: WalkState, terminals: seq<nat>, slot: Slot)
    requires |st.slots| == |st.writes|
    requires forall s :: s in terminals ==> s < |st.slots|
    requires forall i, j :: 0 <= i < j < |terminals| ==> terminals[i] < terminals[j]
    ensures
      var after := Fill(st, terminals, slot);
      && Writes(st, after, iset w: (nat, Slot) | w.0 in terminals && w.1 == slot)
      && after.pending == st.pending && after.satisfied == st.satisfied
  {
    FillEffect(st, terminals, slot);
    hide Fill;
    var after := Fill(st, terminals, slot);
    var found := iset w: (nat, Slot) | w.0 in terminals && w.1 == slot;
    forall s: nat | s < |st.slots|
      ensures if s in terminals then after.slots[s] == slot && after.writes[s] == st.writes[s] + 1
              else after.slots[s] == st.slots[s] && after.writes[s] == st.writes[s]
    {
      assert FilledAt(st, after, terminals, slot, s);
    }
    assert forall s: nat :: s in terminals ==> (s, slot) in found;
  }

  lemma TerminalsFit(t: Trie, slotCount: nat, edgeCount: nat)
    requires WellFormed(t, slotCount, edgeCount)
    ensures SortedEdges(t) && forall s :: s in t.terminals ==> s < slotCount
  {
    assert At(t, []).Some?;
    assert GoodNode(t, slotCount, edgeCount);
  }

  lemma ScalarEffect(v: Value, t: Trie, st: WalkState, slotCount: nat, edgeCount: nat)
    requires !v.Container() && ScalarFailure(v).None?
    requires Ready(t, st, slotCount, edgeCount)
    ensures Causes(st, Fill(EnterScalar(t, st), t.terminals, SlotOf(v)), EffectOf(v, t))
  {
    hide WellFormed, SlotOf, ScalarFailure, OwnsEdge, Accounts, Writes, SeenIn, FoundIn, Fill, Record;
    TerminalsFit(t, slotCount, edgeCount);
    FillWrites(EnterScalar(t, st), t.terminals, SlotOf(v));
    EnterAccounts(t, st, slotCount, edgeCount);
    ScalarEffectIs(v, t);
    SameWrites(st, EnterScalar(t, st), Fill(EnterScalar(t, st), t.terminals, SlotOf(v)), EffectOf(v, t).found);
  }

  lemma SameWrites(st: WalkState, entered: WalkState, after: WalkState, found: iset<(nat, Slot)>)
    requires entered == st.(pending := entered.pending)
    requires Writes(entered, after, found)
    ensures Writes(st, after, found)
  {
  }

  // ---- The induction

  /** All flags of the node's own subtree are clear when the walk enters it. */
  ghost predicate Ready(t: Trie, st: WalkState, slotCount: nat, edgeCount: nat) {
    && WellFormed(t, slotCount, edgeCount)
    && |st.slots| == |st.writes| == slotCount && |st.satisfied| == edgeCount
    && (forall id :: OwnsEdge(t, id) ==> !Satisfied(st, id))
  }

  ghost predicate Agrees(r: Walked, failure: Option<StatusCode>, before: WalkState, e: Effect) {
    if r.Hard? then failure == Some(r.code) else failure.None? && Causes(before, r.state, e)
  }

  lemma {:induction false} WalkAgrees(v: Value, t: Trie, st: WalkState, depth: nat,
                                      slotCount: nat, edgeCount: nat)
    requires Ready(t, st, slotCount, edgeCount)
    ensures Agrees(WalkValue(v, t, st, depth), HardFailure(v, depth), st, EffectOf(v, t))
    decreases v, 3
  {
    if depth <= MAX_DEPTH {
      match v {
        case Object(fields) => ObjectAgrees(fields, t, st, depth, slotCount, edgeCount);
        case Array(elements) => ArrayAgrees(elements, t, st, depth, slotCount, edgeCount);
        case _ => ScalarAgrees(v, t, st, depth, slotCount, edgeCount);
      }
    }
  }

  lemma ScalarAgrees(v: Value, t: Trie, st: WalkState, depth: nat, slotCount: nat, edgeCount: nat)
    requires !v.Container() && depth <= MAX_DEPTH
    requires Ready(t, st, slotCount, edgeCount)
    ensures Agrees(WalkValue(v, t, st, depth), HardFailure(v, depth), st, EffectOf(v, t))
  {
    hide Ready, Causes, EffectOf, Fill;
    assert HardFailure(v, depth) == ScalarFailure(v);
    if ScalarFailure(v).None? {
      ScalarEffect(v, t, st, slotCount, edgeCount);
      assert WalkValue(v, t, st, depth) == Done(Fill(EnterScalar(t, st), t.terminals, SlotOf(v)));
    }
  }

  lemma EmptyBelow(t: Trie)
    ensures Below(Object([]), t) == Nothing()
    ensures Below(Array([]), t) == Nothing()
  {
    assert forall g :: !BothStep(Object([]), t, g) && !BothStep(Array([]), t, g);
    assert Below(Object([]), t).found == iset{};
    assert Below(Array([]), t).found == iset{};
  }

  // An edge not yet followed leads to a subtree the walk has not touched.
  lemma EdgeIsReady(v: Value, t: Trie, g: Segment, st0: WalkState, st: WalkState,
                    slotCount: nat, edgeCount: nat)
    requires Ready(t, st0, slotCount, edgeCount)
    requires Causes(st0, st, Below(v, t))
    requires Child(v, g).None? && Step(t, g).Some?
    ensures Ready(Step(t, g).value, st, slotCount, edgeCount)
    ensures forall id: nat :: EdgeOf(t, g, id) ==>
              !Satisfied(st, id) && id < edgeCount
              && Ready(Step(t, g).value, Satisfy(st, id), slotCount, edgeCount)
  {
    ChildIsWellFormed(t, g, slotCount, edgeCount);
    BelowAvoids(v, t, g, slotCount, edgeCount);
    forall id: nat | OwnsEdge(Step(t, g).value, id) || EdgeOf(t, g, id) ensures !Satisfied(st, id) {
      if EdgeOf(t, g, id) {
        assert HasEdge(t, [], FindKey(t.objectEdges, g.key), id);
      } else {
        ChildOwnsEdge(t, g, id);
      }
    }
    forall id: nat | EdgeOf(t, g, id)
      ensures id < edgeCount && Ready(Step(t, g).value, Satisfy(st, id), slotCount, edgeCount)
    {
      assert At(t, []).Some?;
      assert t.objectEdges[FindKey(t.objectEdges, g.key)] in t.objectEdges;
      OwnFlagIsFresh(t, g, g, id, slotCount, edgeCount);
    }
  }

  // The effect of an edge: its flag is set, then its child is walked.
  lemma EdgeCauses(t: Trie, g: Segment, x: Value, st: WalkState, marked: WalkState, after: WalkState)
    requires Step(t, g).Some?
    requires if g.Key? then exists id: nat :: EdgeOf(t, g, id) && marked == Satisfy(st, id) else marked == st
    requires Causes(marked, after, EffectOf(x, Step(t, g).value))
    ensures Causes(st, after, EdgeEffect(x, t, g))
  {
    hide SeenIn, FoundIn, OwnsEdge, EdgeOf;
    var e, f := EdgeEffect(x, t, g), EffectOf(x, Step(t, g).value);
    assert e.found == f.found && e.seen == f.seen;
    assert forall id :: id in f.marked ==> id in e.marked;
  }

  // Following one more edge adds exactly that edge's effect.
  lemma FollowEdge(v: Value, w: Value, t: Trie, g: Segment, x: Value, st0: WalkState, st: WalkState,
                   marked: WalkState, after: WalkState, slotCount: nat, edgeCount: nat)
    requires Ready(t, st0, slotCount, edgeCount)
    requires Causes(st0, st, Below(v, t))
    requires Extends(w, v, g, x) && Step(t, g).Some?
    requires if g.Key? then exists id: nat :: EdgeOf(t, g, id) && marked == Satisfy(st, id) else marked == st
    requires Causes(marked, after, EffectOf(x, Step(t, g).value))
    ensures Causes(st0, after, Below(w, t))
  {
    hide WellFormed, SeenIn, OwnsEdge, Accounts;
    EdgeIsReady(v, t, g, st0, st, slotCount, edgeCount);
    BelowGrows(v, w, t, g, x);
    BelowAvoids(v, t, g, slotCount, edgeCount);
    var e := EdgeEffect(x, t, g);
    EdgeCauses(t, g, x, st, marked, after);
    forall s: nat | Mentions(e.found, s) ensures OwnsSlot(Step(t, g).value, s) {
      var y :| (s, y) in e.found;
      var path :| FoundAt(x, Step(t, g).value, path, s, y);
    }
    Sequence(st0, st, after, Below(v, t), e);
  }

  // ---- Objects

  lemma {:induction false} FirstFieldSnoc(fields: seq<Field>, field: Field, key: Bytes)
    ensures FirstField(fields + [field], key) ==
            if FirstField(fields, key).Some? then FirstField(fields, key)
            else if field.Field? && field.key == key then Some(field.value)
            else None
  {
    if fields == [] {
      assert fields + [field] == [field];
    } else {
      assert (fields + [field])[1..] == fields[1..] + [field];
      FirstFieldSnoc(fields[1..], field, key);
    }
  }

  /** A flag is set exactly when its key has already been met. */
  ghost predicate FlagsMatch(fields: seq<Field>, t: Trie, st: WalkState) {
    forall e :: e in t.objectEdges ==>
      (Satisfied(st, e.executionId) <==> FirstField(fields, e.key).Some?)
  }

  ghost predicate FieldsSoFar(fields: seq<Field>, t: Trie, st0: WalkState, st: WalkState) {
    Causes(st0, st, Below(Object(fields), t)) && FlagsMatch(fields, t, st)
  }

  lemma {:induction false} ObjectAgrees(fields: seq<Field>, t: Trie, st: WalkState, depth: nat,
                                        slotCount: nat, edgeCount: nat)
    requires Ready(t, st, slotCount, edgeCount) && depth <= MAX_DEPTH
    ensures Agrees(WalkValue(Object(fields), t, st, depth), HardFailure(Object(fields), depth),
                   st, EffectOf(Object(fields), t))
    decreases fields, 2
  {
    hide WellFormed, WalkFields, FieldsFailure, Accounts, MissingAt, SeenIn, FoundIn, FlagsMatch, Writes, Marks;
    var v := Object(fields);
    var entered := EnterObject(t, st);
    EmptyBelow(t);
    CausesNothing(entered);
    RootFlagsClear(t, entered, slotCount, edgeCount);
    assert fields[0..] == fields && fields[..0] == [];
    FieldsAgree(fields, 0, t, entered, entered, depth, slotCount, edgeCount);
    var r := WalkFields(fields, t, entered, depth);
    if r.Done? {
      EnterAccounts(t, st, slotCount, edgeCount);
      var missing := iset f: Failure | MissingAt(fields, t.objectEdges, f);
      AccountsTwice(st.pending, entered.pending, r.state.pending,
                    TerminalGroup(t) + ArrayGroup(t), Below(v, t).seen + missing);
      ObjectSeen(fields, t, slotCount, edgeCount);
      FinishNode(v, t, st, entered, r.state, missing);
    }
  }

  lemma ObjectSeen(fields: seq<Field>, t: Trie, slotCount: nat, edgeCount: nat)
    requires WellFormed(t, slotCount, edgeCount)
    ensures EffectOf(Object(fields), t).seen ==
            TerminalGroup(t) + ArrayGroup(t)
            + (Below(Object(fields), t).seen + iset f: Failure | MissingAt(fields, t.objectEdges, f))
  {
    EdgesHaveGoodFirst(t, slotCount, edgeCount);
    hide WellFormed, GoodFirst, MissingAt, Stuck, SeenBelow, SortedEdges;
    forall f ensures SeenIn(Object(fields), t, f) <==>
                     || f in TerminalGroup(t) || f in ArrayGroup(t)
                     || SeenBelow(Object(fields), t, f) || MissingAt(fields, t.objectEdges, f)
    {
      SeenUnfolds(Object(fields), t, f);
      StuckByType(Object(fields), t, f);
    }
  }

  // The walk's own entry failures, what is below, and what is recorded at the end.
  lemma FinishNode(v: Value, t: Trie, st: WalkState, entered: WalkState, after: WalkState, last: iset<Failure>)
    requires v.Container()
    requires entered == st.(pending := entered.pending)
    requires Causes(entered, after, Both(Below(v, t), SeenOnly(last)))
    requires Accounts(st.pending, after.pending, EffectOf(v, t).seen)
    ensures Causes(st, after, EffectOf(v, t))
  {
    hide Accounts, Below, EffectOf;
    assert Below(v, t).found + iset{} == Below(v, t).found;
    assert Below(v, t).marked + iset{} == Below(v, t).marked;
    WholeNode(v, t, entered, after);
  }

  lemma RootFlagsClear(t: Trie, st: WalkState, slotCount: nat, edgeCount: nat)
    requires Ready(t, st, slotCount, edgeCount)
    ensures FlagsMatch([], t, st)
  {
    forall e | e in t.objectEdges ensures !Satisfied(st, e.executionId) {
      var i :| 0 <= i < |t.objectEdges| && t.objectEdges[i] == e;
      assert HasEdge(t, [], i, e.executionId);
    }
  }

  // A failure recorded after the walk of a container touches nothing else.
  lemma RecordLast(st0: WalkState, st: WalkState, e: Effect, pending: Option<Failure>, last: iset<Failure>)
    requires Causes(st0, st, e)
    requires Accounts(st.pending, pending, last)
    ensures Causes(st0, st.(pending := pending), Both(e, SeenOnly(last)))
  {
    AccountsTwice(st0.pending, st.pending, pending, e.seen, last);
    hide Accounts;
    assert e.found + iset{} == e.found && e.marked + iset{} == e.marked;
  }

  // Found slots and flags of a container are those below it.
  lemma WholeNode(v: Value, t: Trie, before: WalkState, after: WalkState)
    requires v.Container()
    requires Writes(before, after, Below(v, t).found) && Marks(before, after, Below(v, t).marked)
    ensures Writes(before, after, EffectOf(v, t).found) && Marks(before, after, EffectOf(v, t).marked)
  {
    forall w ensures w in EffectOf(v, t).found <==> w in Below(v, t).found {
      FoundUnfolds(v, t, w);
    }
    assert EffectOf(v, t).found == Below(v, t).found;
    forall id: nat | id in Below(v, t).marked ensures id in EffectOf(v, t).marked {
      MarkedUnfolds(v, t, id);
    }
  }

  lemma {:induction false} FieldsAgree(fields: seq<Field>, i: nat, t: Trie, st0: WalkState, st: WalkState,
                                       depth: nat, slotCount: nat, edgeCount: nat)
    requires i <= |fields|
    requires Ready(t, st0, slotCount, edgeCount)
    requires FieldsSoFar(fields[..i], t, st0, st)
    ensures
      Agrees(WalkFields(fields[i..], t, st, depth), FieldsFailure(fields[i..], depth), st0,
             Both(Below(Object(fields), t), SeenOnly(iset f: Failure | MissingAt(fields, t.objectEdges, f))))
    decreases fields[i..], 1
  {
    hide WellFormed, Causes, Below, FlagsMatch, MissingAt;
    if i == |fields| {
      assert fields[..i] == fields;
      MissingAccounts(fields, t.objectEdges, t, st, st.pending, slotCount, edgeCount);
      RecordLast(st0, st, Below(Object(fields), t), RecordMissing(t.objectEdges, st, st.pending),
                 iset f: Failure | MissingAt(fields, t.objectEdges, f));
    } else {
      var field := fields[i..][0];
      assert fields[i..][1..] == fields[i + 1..];
      FieldAgrees(fields[..i], field, t, st0, st, depth, slotCount, edgeCount);
      assert fields[..i] + [field] == fields[..i + 1];
      var r := WalkField(field, t, st, depth);
      if r.Done? {
        FieldsAgree(fields, i + 1, t, st0, r.state, depth, slotCount, edgeCount);
      }
    }
  }

  lemma {:induction false} FieldAgrees(before: seq<Field>, field: Field, t: Trie, st0: WalkState, st: WalkState,
                                       depth: nat, slotCount: nat, edgeCount: nat)
    requires Ready(t, st0, slotCount, edgeCount)
    requires FieldsSoFar(before, t, st0, st)
    ensures
      var r := WalkField(field, t, st, depth);
      if r.Hard? then FieldFailure(field, depth) == Some(r.code)
      else FieldFailure(field, depth).None? && FieldsSoFar(before + [field], t, st0, r.state)
    decreases field, 0
  {
    forall key ensures FirstField(before + [field], key) ==
                       if FirstField(before, key).Some? then FirstField(before, key)
                       else if field.Field? && field.key == key then Some(field.value) else None {
      FirstFieldSnoc(before, field, key);
    }
    hide WellFormed, Causes, Less, WalkValue, HardFailure;
    if field.Field? {
      var v, w, g := Object(before), Object(before + [field]), Key(field.key);
      var k := FindKey(t.objectEdges, field.key);
      if Child(v, g).Some? {
        SameChildren(v, w, t);
      } else {
        assert Extends(w, v, g, field.value);
        if Step(t, g).None? {
          BelowGrows(v, w, t, g, field.value);
        } else {
          FollowedFieldAgrees(before, field.key, field.value, t, st0, st, depth, slotCount, edgeCount);
        }
      }
    }
  }

  // The first field with a requested key is walked under its edge.
  lemma {:induction false} FollowedFieldAgrees(before: seq<Field>, key: Bytes, x: Value, t: Trie, st0: WalkState,
                                               st: WalkState, depth: nat, slotCount: nat, edgeCount: nat)
    requires Ready(t, st0, slotCount, edgeCount) && FieldsSoFar(before, t, st0, st)
    requires Step(t, Key(key)).Some? && Child(Object(before), Key(key)).None?
    requires Extends(Object(before + [Field(key, x)]), Object(before), Key(key), x)
    ensures
      var edge := t.objectEdges[FindKey(t.objectEdges, key)];
      var r := WalkValue(x, edge.child, Satisfy(st, edge.executionId), depth + 1);
      if r.Hard? then HardFailure(x, depth + 1) == Some(r.code)
      else HardFailure(x, depth + 1).None? && FieldsSoFar(before + [Field(key, x)], t, st0, r.state)
    decreases x, 4
  {
    var v, w, g := Object(before), Object(before + [Field(key, x)]), Key(key);
    var edge := t.objectEdges[FindKey(t.objectEdges, key)];
    assert EdgeOf(t, g, edge.executionId);
    EdgeIsReady(v, t, g, st0, st, slotCount, edgeCount);
    var marked := Satisfy(st, edge.executionId);
    WalkAgrees(x, edge.child, marked, depth + 1, slotCount, edgeCount);
    var r := WalkValue(x, edge.child, marked, depth + 1);
    if r.Done? {
      FollowEdge(v, w, t, g, x, st0, st, marked, r.state, slotCount, edgeCount);
      FlagsAfter(before, Field(key, x), t, st, r.state, slotCount, edgeCount);
    }
  }

  lemma SameChildren(v: Value, w: Value, t: Trie)
    requires forall g :: Child(v, g) == Child(w, g)
    ensures Below(v, t) == Below(w, t)
  {
    hide Child, Step, EdgeEffect;
    assert forall g :: BothStep(v, t, g) == BothStep(w, t, g);
    assert forall x :: FoundBelow(v, t, x) == FoundBelow(w, t, x);
    assert forall x :: SeenBelow(v, t, x) == SeenBelow(w, t, x);
    assert forall x :: MarkedBelow(v, t, x) == MarkedBelow(w, t, x);
    assert Below(v, t).found == Below(w, t).found;
    assert Below(v, t).seen == Below(w, t).seen;
    assert Below(v, t).marked == Below(w, t).marked;
  }

  // Walking below one edge leaves the flags of the node's other edges alone.
  lemma FlagsAfter(before: seq<Field>, field: Field, t: Trie, st: WalkState, after: WalkState,
                   slotCount: nat, edgeCount: nat)
    requires WellFormed(t, slotCount, edgeCount) && |st.satisfied| == edgeCount
    requires field.Field? && FindKey(t.objectEdges, field.key) < |t.objectEdges|
    requires FlagsMatch(before, t, st) && FirstField(before, field.key).None?
    requires
      var edge := t.objectEdges[FindKey(t.objectEdges, field.key)];
      Marks(Satisfy(st, edge.executionId), after, iset id: nat | OwnsEdge(edge.child, id))
    ensures FlagsMatch(before + [field], t, after)
  {
    assert At(t, []).Some?;
    var k := FindKey(t.objectEdges, field.key);
    var own := t.objectEdges[k];
    assert own in t.objectEdges;
    forall e | e in t.objectEdges
      ensures Satisfied(after, e.executionId) <==> FirstField(before + [field], e.key).Some?
    {
      FirstFieldSnoc(before, field, e.key);
      var i :| 0 <= i < |t.objectEdges| && t.objectEdges[i] == e;
      EdgeStep(t, i);
      assert EdgeOf(t, Key(e.key), e.executionId);
      OwnFlagIsFresh(t, Key(e.key), Key(field.key), e.executionId, slotCount, edgeCount);
      assert e.executionId == own.executionId ==> HasEdge(t, [], i, own.executionId) && HasEdge(t, [], k, own.executionId);
    }
  }

  lemma {:induction false} MissingAccounts(fields: seq<Field>, edges: seq<ObjectEdge>, t: Trie, st: WalkState,
                                           pending: Option<Failure>, slotCount: nat, edgeCount: nat)
    requires WellFormed(t, slotCount, edgeCount)
    requires forall e :: e in edges ==> e in t.objectEdges
    requires FlagsMatch(fields, t, st)
    ensures Accounts(pending, RecordMissing(edges, st, pending), iset f: Failure | MissingAt(fields, edges, f))
  {
    if edges != [] {
      var edge := edges[0];
      assert edges == [edge] + edges[1..];
      assert forall e :: e in edges[1..] ==> e in edges;
      var next := if Satisfied(st, edge.executionId) then pending
                  else Record(pending, MissingField, edge.child.first);
      MissingAccounts(fields, edges[1..], t, st, next, slotCount, edgeCount);
      MissingHead(fields, edge, t, st, pending, slotCount, edgeCount);
      var head := iset f: Failure | MissingAt(fields, [edge], f);
      var tail := iset f: Failure | MissingAt(fields, edges[1..], f);
      hide WellFormed, Accounts, Satisfied, FlagsMatch;
      AccountsTwice(pending, next, RecordMissing(edges, st, pending), head, tail);
      MissingIsSplit(fields, edges);
    }
  }

  lemma MissingIsSplit(fields: seq<Field>, edges: seq<ObjectEdge>)
    requires edges != []
    ensures (iset f: Failure | MissingAt(fields, edges, f)) ==
            (iset f: Failure | MissingAt(fields, [edges[0]], f)) + (iset f: Failure | MissingAt(fields, edges[1..], f))
  {
    assert edges == [edges[0]] + edges[1..];
    assert edges[0] in [edges[0]];
    forall f ensures MissingAt(fields, edges, f) <==>
                     MissingAt(fields, [edges[0]], f) || MissingAt(fields, edges[1..], f)
    {
    }
  }

  lemma MissingHead(fields: seq<Field>, edge: ObjectEdge, t: Trie, st: WalkState, pending: Option<Failure>,
                    slotCount: nat, edgeCount: nat)
    requires WellFormed(t, slotCount, edgeCount) && edge in t.objectEdges && FlagsMatch(fields, t, st)
    ensures
      var next := if Satisfied(st, edge.executionId) then pending
                  else Record(pending, MissingField, edge.child.first);
      Accounts(pending, next, iset f: Failure | MissingAt(fields, [edge], f))
  {
    EdgesHaveGoodFirst(t, slotCount, edgeCount);
    hide WellFormed;
    var head := iset f: Failure | MissingAt(fields, [edge], f);
    assert edge in [edge];
    if !Satisfied(st, edge.executionId) {
      forall f | f in head ensures edge.child.first <= f.slot {
        var p :| HasSlot(edge.child, p, f.slot);
      }
      RecordAccounts(pending, MissingField, edge.child.first, head);
    }
  }

  // ---- Arrays

  /** Requests below `index` have been answered, the others have not. */
  ghost predicate Requested(t: Trie, requested: nat, index: nat) {
    && requested <= |t.arrayEdges|
    && (forall k :: 0 <= k < requested ==> t.arrayEdges[k].index < index)
    && (forall k :: requested <= k < |t.arrayEdges| ==> index <= t.arrayEdges[k].index)
  }

  lemma {:induction false} ArrayAgrees(elements: seq<Value>, t: Trie, st: WalkState, depth: nat,
                                       slotCount: nat, edgeCount: nat)
    requires Ready(t, st, slotCount, edgeCount) && depth <= MAX_DEPTH
    ensures Agrees(WalkValue(Array(elements), t, st, depth), HardFailure(Array(elements), depth),
                   st, EffectOf(Array(elements), t))
    decreases elements, 2
  {
    hide WellFormed, WalkElements, ElementsFailure, Accounts, TooShortAt, SeenIn, FoundIn, Writes, Marks;
    var v := Array(elements);
    var entered := EnterArray(t, st);
    EmptyBelow(t);
    CausesNothing(entered);
    assert elements[0..] == elements && elements[..0] == [];
    ElementsAgree(elements, 0, t, entered, entered, depth, 0, slotCount, edgeCount);
    var r := WalkElements(elements, t, entered, depth, 0, 0);
    if r.Done? {
      EnterAccounts(t, st, slotCount, edgeCount);
      var short := iset f: Failure | TooShortAt(|elements|, t, f);
      AccountsTwice(st.pending, entered.pending, r.state.pending,
                    TerminalGroup(t) + ObjectGroup(t), Below(v, t).seen + short);
      ArraySeen(elements, t, slotCount, edgeCount);
      FinishNode(v, t, st, entered, r.state, short);
    }
  }

  lemma ArraySeen(elements: seq<Value>, t: Trie, slotCount: nat, edgeCount: nat)
    requires WellFormed(t, slotCount, edgeCount)
    ensures EffectOf(Array(elements), t).seen ==
            TerminalGroup(t) + ObjectGroup(t)
            + (Below(Array(elements), t).seen + iset f: Failure | TooShortAt(|elements|, t, f))
  {
    EdgesHaveGoodFirst(t, slotCount, edgeCount);
    hide WellFormed, GoodFirst, TooShortAt, Stuck, SeenBelow, SortedEdges;
    forall f ensures SeenIn(Array(elements), t, f) <==>
                     || f in TerminalGroup(t) || f in ObjectGroup(t)
                     || SeenBelow(Array(elements), t, f) || TooShortAt(|elements|, t, f)
    {
      SeenUnfolds(Array(elements), t, f);
      StuckByType(Array(elements), t, f);
    }
  }

  lemma {:induction false} ElementsAgree(elements: seq<Value>, i: nat, t: Trie, st0: WalkState, st: WalkState,
                                         depth: nat, requested: nat, slotCount: nat, edgeCount: nat)
    requires i <= |elements| && Requested(t, requested, i)
    requires Ready(t, st0, slotCount, edgeCount)
    requires Causes(st0, st, Below(Array(elements[..i]), t))
    ensures
      Agrees(WalkElements(elements[i..], t, st, depth, requested, i),
             ElementsFailure(elements[i..], depth), st0,
             Both(Below(Array(elements), t), SeenOnly(iset f: Failure | TooShortAt(|elements|, t, f))))
    decreases elements[i..], 1
  {
    hide WellFormed, Causes, Below, TooShortAt, WalkValue, HardFailure, Less;
    if i == |elements| {
      assert elements[..i] == elements;
      ElementsEnd(elements, t, st0, st, depth, requested, slotCount, edgeCount);
    } else {
      TerminalsFit(t, slotCount, edgeCount);
      var x := elements[i..][0];
      assert elements[i..][1..] == elements[i + 1..];
      assert elements[..i + 1] == elements[..i] + [x];
      ElementAgrees(elements[..i], x, t, st0, st, depth, requested, slotCount, edgeCount);
      if requested < |t.arrayEdges| && t.arrayEdges[requested].index == i {
        var r := WalkValue(x, t.arrayEdges[requested].child, st, depth + 1);
        if r.Done? {
          ElementsAgree(elements, i + 1, t, st0, r.state, depth, requested + 1, slotCount, edgeCount);
        }
      } else if HardFailure(x, depth + 1).None? {
        ElementsAgree(elements, i + 1, t, st0, st, depth, requested, slotCount, edgeCount);
      }
    }
  }

  lemma ElementsEnd(elements: seq<Value>, t: Trie, st0: WalkState, st: WalkState, depth: nat,
                    requested: nat, slotCount: nat, edgeCount: nat)
    requires WellFormed(t, slotCount, edgeCount) && Requested(t, requested, |elements|)
    requires Causes(st0, st, Below(Array(elements), t))
    ensures
      Agrees(WalkElements([], t, st, depth, requested, |elements|), None, st0,
             Both(Below(Array(elements), t), SeenOnly(iset f: Failure | TooShortAt(|elements|, t, f))))
  {
    hide WellFormed, Causes, Below, TooShortAt;
    ShortArrayAccounts(|elements|, t, st.pending, requested, slotCount, edgeCount);
    RecordLast(st0, st, Below(Array(elements), t),
               WalkElements([], t, st, depth, requested, |elements|).state.pending,
               iset f: Failure | TooShortAt(|elements|, t, f));
  }

  lemma {:induction false} ElementAgrees(before: seq<Value>, x: Value, t: Trie, st0: WalkState, st: WalkState,
                                         depth: nat, requested: nat, slotCount: nat, edgeCount: nat)
    requires Requested(t, requested, |before|)
    requires Ready(t, st0, slotCount, edgeCount)
    requires Causes(st0, st, Below(Array(before), t))
    ensures
      var follows := requested < |t.arrayEdges| && t.arrayEdges[requested].index == |before|;
      var r := if follows then WalkValue(x, t.arrayEdges[requested].child, st, depth + 1)
               else Skip(x, st, depth + 1);
      Agrees(r, HardFailure(x, depth + 1), st0, Below(Array(before + [x]), t))
    decreases x, 4
  {
    var v, w, g := Array(before), Array(before + [x]), Index(|before|);
    TerminalsFit(t, slotCount, edgeCount);
    assert Extends(w, v, g, x);
    hide WellFormed, Causes, Below, Less, WalkValue, HardFailure, Extends, OwnsEdge, SortedEdges;
    if requested < |t.arrayEdges| && t.arrayEdges[requested].index == |before| {
      ElementStep(t, requested);
      EdgeIsReady(v, t, g, st0, st, slotCount, edgeCount);
      WalkAgrees(x, t.arrayEdges[requested].child, st, depth + 1, slotCount, edgeCount);
      var r := WalkValue(x, t.arrayEdges[requested].child, st, depth + 1);
      if r.Done? {
        FollowEdge(v, w, t, g, x, st0, st, st, r.state, slotCount, edgeCount);
      }
    } else {
      UnaskedElement(t, requested, |before|);
      BelowGrows(v, w, t, g, x);
    }
  }

  lemma UnaskedElement(t: Trie, requested: nat, index: nat)
    requires Requested(t, requested, index) && SortedEdges(t)
    requires !(requested < |t.arrayEdges| && t.arrayEdges[requested].index == index)
    ensures Step(t, Index(index)).None?
  {
  }

  lemma ShortArrayAccounts(length: nat, t: Trie, pending: Option<Failure>, requested: nat,
                           slotCount: nat, edgeCount: nat)
    requires WellFormed(t, slotCount, edgeCount) && Requested(t, requested, length)
    ensures Accounts(pending,
                     if requested < |t.arrayEdges|
                     then Record(pending, IndexOutOfBounds, t.arrayEdges[requested].child.first)
                     else pending,
                     iset f: Failure | TooShortAt(length, t, f))
  {
    EdgesHaveGoodFirst(t, slotCount, edgeCount);
    hide WellFormed;
    var short := iset f: Failure | TooShortAt(length, t, f);
    forall f ensures TooShortAt(length, t, f) <==>
                     requested < |t.arrayEdges| && f.code == IndexOutOfBounds
                     && OwnsSlot(t.arrayEdges[requested].child, f.slot)
    {
      OnlyLeastRequest(length, t, requested, f);
    }
    if requested < |t.arrayEdges| {
      var e := t.arrayEdges[requested];
      assert e in t.arrayEdges;
      forall f | f in short ensures e.child.first <= f.slot {
        var p :| HasSlot(e.child, p, f.slot);
      }
      RecordAccounts(pending, IndexOutOfBounds, e.child.first, short);
    }
  }

  lemma OnlyLeastRequest(length: nat, t: Trie, requested: nat, f: Failure)
    requires SortedEdges(t) && Requested(t, requested, length)
    ensures TooShortAt(length, t, f) <==>
            requested < |t.arrayEdges| && f.code == IndexOutOfBounds
            && OwnsSlot(t.arrayEdges[requested].child, f.slot)
  {
    hide OwnsSlot;
    if TooShortAt(length, t, f) {
      var d :| d in t.arrayEdges && length <= d.index && OwnsSlot(d.child, f.slot)
               && forall c :: c in t.arrayEdges && length <= c.index ==> d.index <= c.index;
      var j :| 0 <= j < |t.arrayEdges| && t.arrayEdges[j] == d;
      assert t.arrayEdges[requested] in t.arrayEdges;
    }
    if requested < |t.arrayEdges| {
      assert t.arrayEdges[requested] in t.arrayEdges;
    }
  }
}
