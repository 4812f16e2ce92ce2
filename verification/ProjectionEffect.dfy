/** What the guided walk does to its state, compared with independent lookups. */
module ProjectionEffect {
  import opened Json
  import opened Validation
  import opened ProjectionSpec
  import opened ProjectionTrie
  import opened ProjectionWalk

  /** What a walk found, which failures it let be seen, and which edge flags it may have set. */
  datatype Effect = Effect(found: iset<(nat, Slot)>, seen: iset<Failure>, marked: iset<nat>)

  ghost function Nothing(): Effect {
    Effect(iset{}, iset{}, iset{})
  }

  ghost function Both(a: Effect, b: Effect): Effect {
    Effect(a.found + b.found, a.seen + b.seen, a.marked + b.marked)
  }

  ghost function SeenOnly(seen: iset<Failure>): Effect {
    Effect(iset{}, seen, iset{})
  }

  // `after` is the least failure among `before` and everything in `seen`.
  ghost predicate Accounts(before: Option<Failure>, after: Option<Failure>, seen: iset<Failure>) {
    && (after == before || (after.Some? && after.value in seen))
    && (before.Some? ==> after.Some? && after.value.slot <= before.value.slot)
    && (forall f :: f in seen ==> after.Some? && after.value.slot <= f.slot)
  }

  ghost predicate Mentions(found: iset<(nat, Slot)>, slot: nat) {
    exists x :: (slot, x) in found
  }

  // Every found slot is written once with its value; nothing else is written.
  ghost predicate Writes(before: WalkState, after: WalkState, found: iset<(nat, Slot)>) {
    && |after.slots| == |before.slots| == |after.writes| == |before.writes|
    && (forall w :: w in found ==>
          w.0 < |after.slots| && after.slots[w.0] == w.1
          && after.writes[w.0] == before.writes[w.0] + 1)
    && (forall s: nat :: s < |after.slots| && !Mentions(found, s) ==>
          after.slots[s] == before.slots[s] && after.writes[s] == before.writes[s])
  }

  ghost predicate Marks(before: WalkState, after: WalkState, marked: iset<nat>) {
    && |after.satisfied| == |before.satisfied|
    && (forall id :: id !in marked ==> Satisfied(after, id) == Satisfied(before, id))
    && (forall id :: Satisfied(before, id) ==> Satisfied(after, id))
  }

  ghost predicate Causes(before: WalkState, after: WalkState, e: Effect) {
    && Accounts(before.pending, after.pending, e.seen)
    && Writes(before, after, e.found)
    && Marks(before, after, e.marked)
  }

  lemma CausesNothing(st: WalkState)
    requires |st.slots| == |st.writes|
    ensures Causes(st, st, Nothing())
  {
  }

  lemma Sequence(a: WalkState, b: WalkState, c: WalkState, e: Effect, f: Effect)
    requires Causes(a, b, e) && Causes(b, c, f)
    requires forall s :: !(Mentions(e.found, s) && Mentions(f.found, s))
    ensures Causes(a, c, Both(e, f))
  {
    assert Accounts(a.pending, c.pending, e.seen + f.seen);
    forall w | w in e.found + f.found
      ensures w.0 < |c.slots| && c.slots[w.0] == w.1 && c.writes[w.0] == a.writes[w.0] + 1
    {
      assert (w.0, w.1) == w;
      if w in e.found {
        assert Mentions(e.found, w.0);
      } else {
        assert Mentions(f.found, w.0);
      }
    }
    forall s: nat | s < |c.slots| && !Mentions(e.found + f.found, s)
      ensures c.slots[s] == a.slots[s] && c.writes[s] == a.writes[s]
    {
      assert forall x :: (s, x) !in e.found + f.found;
      assert !Mentions(e.found, s) && !Mentions(f.found, s);
    }
  }

  // ---- One path failure recorded

  lemma RecordAccounts(pending: Option<Failure>, code: StatusCode, slot: nat, seen: iset<Failure>)
    requires slot == SLOT_UNAVAILABLE ==> seen == iset{}
    requires slot != SLOT_UNAVAILABLE ==> Failure(code, slot) in seen
    requires forall f :: f in seen ==> slot <= f.slot
    ensures Accounts(pending, Record(pending, code, slot), seen)
  {
  }

  lemma AccountsTwice(a: Option<Failure>, b: Option<Failure>, c: Option<Failure>,
                      s: iset<Failure>, t: iset<Failure>)
    requires Accounts(a, b, s) && Accounts(b, c, t)
    ensures Accounts(a, c, s + t)
  {
  }

  // ---- The effect of walking `v` under `t`, stated by independent lookups

  ghost predicate BothStep(v: Value, t: Trie, segment: Segment) {
    Child(v, segment).Some? && Step(t, segment).Some?
  }

  /** The trie's own account of which short-array requests are shadowed. */
  ghost predicate Hidden(v: Value, t: Trie, path: Path)
    decreases |path|
  {
    && path != []
    && if BothStep(v, t, path[0])
       then Hidden(Child(v, path[0]).value, Step(t, path[0]).value, path[1..])
       else
         && v.Array? && path[0].Index?
         && exists e :: e in t.arrayEdges && |v.elements| <= e.index < path[0].index
  }

  ghost predicate FoundAt(v: Value, t: Trie, path: Path, slot: nat, x: Slot) {
    HasSlot(t, path, slot) && Lookup(v, path) == Found(x)
  }

  ghost predicate SeenAt(v: Value, t: Trie, path: Path, f: Failure) {
    HasSlot(t, path, f.slot) && Lookup(v, path) == Failed(f.code) && !Hidden(v, t, path)
  }

  ghost predicate FoundIn(v: Value, t: Trie, w: (nat, Slot)) {
    exists path :: FoundAt(v, t, path, w.0, w.1)
  }

  ghost predicate SeenIn(v: Value, t: Trie, f: Failure) {
    exists path :: SeenAt(v, t, path, f)
  }

  ghost function EffectOf(v: Value, t: Trie): Effect {
    Effect(iset w: (nat, Slot) | FoundIn(v, t, w),
           iset f: Failure | SeenIn(v, t, f),
           iset id: nat | OwnsEdge(t, id))
  }

  ghost predicate EdgeOf(t: Trie, segment: Segment, id: nat) {
    && segment.Key?
    && FindKey(t.objectEdges, segment.key) < |t.objectEdges|
    && t.objectEdges[FindKey(t.objectEdges, segment.key)].executionId == id
  }

  /** The effect of following one edge: its flag, and the walk of its child. */
  ghost function EdgeEffect(x: Value, t: Trie, segment: Segment): Effect
    requires Step(t, segment).Some?
  {
    Both(EffectOf(x, Step(t, segment).value), Effect(iset{}, iset{}, iset id: nat | EdgeOf(t, segment, id)))
  }

  ghost predicate FoundBelow(v: Value, t: Trie, w: (nat, Slot)) {
    exists g :: BothStep(v, t, g) && w in EdgeEffect(Child(v, g).value, t, g).found
  }

  ghost predicate SeenBelow(v: Value, t: Trie, f: Failure) {
    exists g :: BothStep(v, t, g) && f in EdgeEffect(Child(v, g).value, t, g).seen
  }

  ghost predicate MarkedBelow(v: Value, t: Trie, id: nat) {
    exists g :: BothStep(v, t, g) && id in EdgeEffect(Child(v, g).value, t, g).marked
  }

  /** The effect of following every edge that the value has a child for. */
  ghost function Below(v: Value, t: Trie): Effect {
    Effect(iset w: (nat, Slot) | FoundBelow(v, t, w),
           iset f: Failure | SeenBelow(v, t, f),
           iset id: nat | MarkedBelow(v, t, id))
  }

  // `w` is `v` with one more child.
  ghost predicate Extends(w: Value, v: Value, segment: Segment, x: Value) {
    && Child(v, segment).None? && Child(w, segment) == Some(x)
    && forall g :: g != segment ==> Child(w, g) == Child(v, g)
  }

  lemma BelowGrows(v: Value, w: Value, t: Trie, segment: Segment, x: Value)
    requires Extends(w, v, segment, x)
    ensures Step(t, segment).Some? ==> Below(w, t) == Both(Below(v, t), EdgeEffect(x, t, segment))
    ensures Step(t, segment).None? ==> Below(w, t) == Below(v, t)
  {
    StepsGrow(v, w, t, segment, x);
    BelowFoundGrows(v, w, t, segment, x);
    BelowSeenGrows(v, w, t, segment, x);
    BelowMarkedGrows(v, w, t, segment, x);
    hide *;
    SameEffect(Below(w, t), Below(v, t));
    if Step(t, segment).Some? {
      IsBoth(Below(w, t), Below(v, t), EdgeEffect(x, t, segment));
    }
  }

  lemma SameEffect(a: Effect, b: Effect)
    ensures a.found == b.found + iset{} && a.seen == b.seen + iset{} && a.marked == b.marked + iset{} ==> a == b
  {
  }

  lemma IsBoth(a: Effect, b: Effect, c: Effect)
    ensures a.found == b.found + c.found && a.seen == b.seen + c.seen && a.marked == b.marked + c.marked ==>
              a == Both(b, c)
  {
  }

  lemma StepsGrow(v: Value, w: Value, t: Trie, segment: Segment, x: Value)
    requires Extends(w, v, segment, x)
    ensures forall g :: BothStep(w, t, g) <==> BothStep(v, t, g) || (g == segment && Step(t, segment).Some?)
  {
  }

  lemma BelowFoundGrows(v: Value, w: Value, t: Trie, segment: Segment, x: Value)
    requires Extends(w, v, segment, x)
    requires forall g :: BothStep(w, t, g) <==> BothStep(v, t, g) || (g == segment && Step(t, segment).Some?)
    ensures Below(w, t).found ==
            Below(v, t).found + (if Step(t, segment).Some? then EdgeEffect(x, t, segment).found else iset{})
  {
    forall e | e in Below(v, t).found ensures e in Below(w, t).found {
      var g :| BothStep(v, t, g) && e in EdgeEffect(Child(v, g).value, t, g).found;
      assert BothStep(w, t, g) && Child(w, g) == Child(v, g);
    }
    if Step(t, segment).Some? {
      assert BothStep(w, t, segment);
    }
    forall e | e in Below(w, t).found
      ensures e in Below(v, t).found || (Step(t, segment).Some? && e in EdgeEffect(x, t, segment).found)
    {
      var g :| BothStep(w, t, g) && e in EdgeEffect(Child(w, g).value, t, g).found;
      if g != segment {
        assert BothStep(v, t, g) && Child(w, g) == Child(v, g);
      }
    }
  }

  lemma BelowSeenGrows(v: Value, w: Value, t: Trie, segment: Segment, x: Value)
    requires Extends(w, v, segment, x)
    requires forall g :: BothStep(w, t, g) <==> BothStep(v, t, g) || (g == segment && Step(t, segment).Some?)
    ensures Below(w, t).seen ==
            Below(v, t).seen + (if Step(t, segment).Some? then EdgeEffect(x, t, segment).seen else iset{})
  {
    forall e | e in Below(v, t).seen ensures e in Below(w, t).seen {
      var g :| BothStep(v, t, g) && e in EdgeEffect(Child(v, g).value, t, g).seen;
      assert BothStep(w, t, g) && Child(w, g) == Child(v, g);
    }
    if Step(t, segment).Some? {
      assert BothStep(w, t, segment);
    }
    forall e | e in Below(w, t).seen
      ensures e in Below(v, t).seen || (Step(t, segment).Some? && e in EdgeEffect(x, t, segment).seen)
    {
      var g :| BothStep(w, t, g) && e in EdgeEffect(Child(w, g).value, t, g).seen;
      if g != segment {
        assert BothStep(v, t, g) && Child(w, g) == Child(v, g);
      }
    }
  }

  lemma BelowMarkedGrows(v: Value, w: Value, t: Trie, segment: Segment, x: Value)
    requires Extends(w, v, segment, x)
    requires forall g :: BothStep(w, t, g) <==> BothStep(v, t, g) || (g == segment && Step(t, segment).Some?)
    ensures Below(w, t).marked ==
            Below(v, t).marked + (if Step(t, segment).Some? then EdgeEffect(x, t, segment).marked else iset{})
  {
    forall e | e in Below(v, t).marked ensures e in Below(w, t).marked {
      var g :| BothStep(v, t, g) && e in EdgeEffect(Child(v, g).value, t, g).marked;
      assert BothStep(w, t, g) && Child(w, g) == Child(v, g);
    }
    if Step(t, segment).Some? {
      assert BothStep(w, t, segment);
    }
    forall e | e in Below(w, t).marked
      ensures e in Below(v, t).marked || (Step(t, segment).Some? && e in EdgeEffect(x, t, segment).marked)
    {
      var g :| BothStep(w, t, g) && e in EdgeEffect(Child(w, g).value, t, g).marked;
      if g != segment {
        assert BothStep(v, t, g) && Child(w, g) == Child(v, g);
      }
    }
  }

  // A slot, and an edge flag, has one place in the trie.
  lemma SlotHasOneEdge(t: Trie, g: Segment, h: Segment, s: nat, slotCount: nat, edgeCount: nat)
    requires WellFormed(t, slotCount, edgeCount)
    requires Step(t, g).Some? && Step(t, h).Some?
    requires OwnsSlot(Step(t, g).value, s) && OwnsSlot(Step(t, h).value, s)
    ensures g == h
  {
    var p :| HasSlot(Step(t, g).value, p, s);
    var q :| HasSlot(Step(t, h).value, q, s);
    AtCons(t, g, p);
    AtCons(t, h, q);
    assert HasSlot(t, [g] + p, s) && HasSlot(t, [h] + q, s);
    assert ([g] + p)[0] == g && ([h] + q)[0] == h;
  }

  lemma FlagHasOneEdge(t: Trie, g: Segment, h: Segment, id: nat, slotCount: nat, edgeCount: nat)
    requires WellFormed(t, slotCount, edgeCount)
    requires Step(t, g).Some? && Step(t, h).Some?
    requires OwnsEdge(Step(t, g).value, id) && OwnsEdge(Step(t, h).value, id)
    ensures g == h
  {
    var p, i: nat :| HasEdge(Step(t, g).value, p, i, id);
    var q, j: nat :| HasEdge(Step(t, h).value, q, j, id);
    AtCons(t, g, p);
    AtCons(t, h, q);
    assert HasEdge(t, [g] + p, i, id) && HasEdge(t, [h] + q, j, id);
    assert ([g] + p)[0] == g && ([h] + q)[0] == h;
  }

  lemma OwnFlagIsFresh(t: Trie, g: Segment, h: Segment, id: nat, slotCount: nat, edgeCount: nat)
    requires WellFormed(t, slotCount, edgeCount)
    requires EdgeOf(t, g, id) && Step(t, h).Some?
    ensures !OwnsEdge(Step(t, h).value, id)
    ensures EdgeOf(t, h, id) ==> g == h
  {
    assert HasEdge(t, [], FindKey(t.objectEdges, g.key), id);
    forall p, i: nat ensures !HasEdge(Step(t, h).value, p, i, id) {
      AtCons(t, h, p);
      assert HasEdge(Step(t, h).value, p, i, id) == HasEdge(t, [h] + p, i, id);
      assert [] != [h] + p;
    }
    assert EdgeOf(t, h, id) ==> HasEdge(t, [], FindKey(t.objectEdges, h.key), id);
  }

  // What is below the children already visited does not touch an edge still to come.
  lemma BelowAvoids(v: Value, t: Trie, g: Segment, slotCount: nat, edgeCount: nat)
    requires WellFormed(t, slotCount, edgeCount)
    requires Step(t, g).Some? && Child(v, g).None?
    ensures forall s: nat :: Mentions(Below(v, t).found, s) ==> !OwnsSlot(Step(t, g).value, s)
    ensures forall id: nat :: id in Below(v, t).marked ==> !OwnsEdge(Step(t, g).value, id) && !EdgeOf(t, g, id)
  {
    hide WellFormed, OwnsSlot, OwnsEdge, EdgeOf;
    forall s: nat | Mentions(Below(v, t).found, s) ensures !OwnsSlot(Step(t, g).value, s) {
      var x :| (s, x) in Below(v, t).found;
      var h :| BothStep(v, t, h) && (s, x) in EdgeEffect(Child(v, h).value, t, h).found;
      BelowAvoidsSlot(v, t, g, h, s, x, slotCount, edgeCount);
    }
    forall id: nat | id in Below(v, t).marked
      ensures !OwnsEdge(Step(t, g).value, id) && !EdgeOf(t, g, id)
    {
      var h :| BothStep(v, t, h) && id in EdgeEffect(Child(v, h).value, t, h).marked;
      BelowAvoidsFlag(v, t, g, h, id, slotCount, edgeCount);
    }
  }

  lemma BelowAvoidsSlot(v: Value, t: Trie, g: Segment, h: Segment, s: nat, x: Slot, slotCount: nat, edgeCount: nat)
    requires WellFormed(t, slotCount, edgeCount)
    requires Step(t, g).Some? && Child(v, g).None? && BothStep(v, t, h)
    requires (s, x) in EdgeEffect(Child(v, h).value, t, h).found
    ensures !OwnsSlot(Step(t, g).value, s)
  {
    var path :| FoundAt(Child(v, h).value, Step(t, h).value, path, s, x);
    assert OwnsSlot(Step(t, h).value, s);
    if OwnsSlot(Step(t, g).value, s) {
      SlotHasOneEdge(t, g, h, s, slotCount, edgeCount);
    }
  }

  lemma BelowAvoidsFlag(v: Value, t: Trie, g: Segment, h: Segment, id: nat, slotCount: nat, edgeCount: nat)
    requires WellFormed(t, slotCount, edgeCount)
    requires Step(t, g).Some? && Child(v, g).None? && BothStep(v, t, h)
    requires id in EdgeEffect(Child(v, h).value, t, h).marked
    ensures !OwnsEdge(Step(t, g).value, id) && !EdgeOf(t, g, id)
  {
    if EdgeOf(t, h, id) {
      OwnFlagIsFresh(t, h, g, id, slotCount, edgeCount);
    } else if OwnsEdge(Step(t, g).value, id) {
      FlagHasOneEdge(t, g, h, id, slotCount, edgeCount);
    } else if EdgeOf(t, g, id) {
      OwnFlagIsFresh(t, g, h, id, slotCount, edgeCount);
    }
  }
}
