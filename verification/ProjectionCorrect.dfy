/** From the walk of a compiled plan to the independent lookups of its paths. */
module ProjectionCorrect {
  import opened Json
  import opened Validation
  import opened ProjectionSpec
  import opened ProjectionTrie
  import opened ProjectionWalk
  import opened ProjectionEffect
  import opened ProjectionSound

  // ---- Paths in parts

  lemma {:induction false} NodeAtConcat(v: Value, p: Path, q: Path)
    ensures NodeAt(v, p + q) == if NodeAt(v, p).None? then None else NodeAt(NodeAt(v, p).value, q)
    decreases |p|
  {
    if p == [] {
      assert p + q == q;
    } else {
      assert (p + q)[1..] == p[1..] + q;
      if Child(v, p[0]).Some? {
        NodeAtConcat(Child(v, p[0]).value, p[1..], q);
      }
    }
  }

  // The path leaves the document at a short array.
  ghost predicate FallsShort(v: Value, path: Path, k: nat) {
    && k < |path| && path[k].Index?
    && NodeAt(v, path[..k]).Some? && NodeAt(v, path[..k]).value.Array?
    && |NodeAt(v, path[..k]).value.elements| <= path[k].index
  }

  lemma FallsShortEndsPath(v: Value, path: Path, k: nat, m: nat)
    requires FallsShort(v, path, k) && k < m <= |path|
    ensures NodeAt(v, path[..m]).None?
  {
    assert path[..m] == path[..k] + path[k..m];
    NodeAtConcat(v, path[..k], path[k..m]);
  }

  lemma FallsShortOnce(v: Value, path: Path, k: nat, m: nat)
    requires FallsShort(v, path, k) && FallsShort(v, path, m)
    ensures k == m
  {
    if k < m {
      FallsShortEndsPath(v, path, k, m);
    } else if m < k {
      FallsShortEndsPath(v, path, m, k);
    }
  }

  lemma {:induction false} LookupFallsShort(v: Value, path: Path, k: nat)
    requires FallsShort(v, path, k)
    ensures Lookup(v, path) == Failed(IndexOutOfBounds)
    decreases k
  {
    if k > 0 {
      assert path[..k][0] == path[0] && path[..k][1..] == path[1..][..k - 1];
      assert Child(v, path[0]).Some?;
      LookupFallsShort(Child(v, path[0]).value, path[1..], k - 1);
    }
  }

  // ---- The trie's hidden requests are the shadowed paths

  ghost predicate HiddenAt(v: Value, t: Trie, path: Path, k: nat) {
    && FallsShort(v, path, k)
    && At(t, path[..k]).Some?
    && SmallerRequest(At(t, path[..k]).value, |NodeAt(v, path[..k]).value.elements|, path[k].index)
  }

  ghost predicate SmallerRequest(t: Trie, length: nat, index: nat) {
    exists e :: e in t.arrayEdges && length <= e.index < index
  }

  lemma HiddenFurtherSteps(v: Value, t: Trie, path: Path, k: nat)
    requires path != [] && k > 0
    ensures HiddenAt(v, t, path, k) ==> BothStep(v, t, path[0])
  {
    if k <= |path| {
      assert path[..k][0] == path[0];
    }
  }

  lemma {:induction false} HiddenUnfolds(v: Value, t: Trie, path: Path)
    requires At(t, path).Some?
    ensures Hidden(v, t, path) <==> exists k: nat :: HiddenAt(v, t, path, k)
    decreases |path|
  {
    if path != [] {
      var g := path[0];
      LookupStep(v, t, path);
      if BothStep(v, t, g) {
        var x, c := Child(v, g).value, Step(t, g).value;
        HiddenUnfolds(x, c, path[1..]);
        forall k: nat | 0 < k < |path| ensures HiddenAt(v, t, path, k) <==> HiddenAt(x, c, path[1..], k - 1) {
          assert path[..k][0] == g && path[..k][1..] == path[1..][..k - 1];
        }
        if k: nat :| HiddenAt(x, c, path[1..], k) {
          assert HiddenAt(v, t, path, k + 1);
        }
        assert !HiddenAt(v, t, path, 0);
        assert forall k: nat :: HiddenAt(v, t, path, k) ==> 0 < k < |path| && HiddenAt(x, c, path[1..], k - 1);
      } else {
        forall k: nat | k > 0 ensures !HiddenAt(v, t, path, k) {
          HiddenFurtherSteps(v, t, path, k);
        }
        assert path[..0] == [];
        assert HiddenAt(v, t, path, 0) <==> HiddenStep(v, t, g);
      }
    }
  }

  // A node has an array edge exactly when some slot's path goes through it.
  lemma EdgeHasRequest(t: Trie, paths: seq<Path>, p: Path, j: nat, edgeCount: nat)
    requires WellFormed(t, |paths|, edgeCount) && Holds(t, paths)
    requires At(t, p).Some?
    ensures (exists e :: e in At(t, p).value.arrayEdges && e.index == j) <==>
            (exists s: nat :: s < |paths| && |p| < |paths[s]| && paths[s][..|p|] == p && paths[s][|p|] == Index(j))
  {
    hide WellFormed, Holds;
    if e :| e in At(t, p).value.arrayEdges && e.index == j {
      RequestOfEdge(t, paths, p, e, edgeCount);
    }
    if s: nat :| s < |paths| && |p| < |paths[s]| && paths[s][..|p|] == p && paths[s][|p|] == Index(j) {
      EdgeOfRequest(t, paths, p, s);
    }
  }

  lemma RequestOfEdge(t: Trie, paths: seq<Path>, p: Path, e: ArrayEdge, edgeCount: nat)
    requires WellFormed(t, |paths|, edgeCount) && Holds(t, paths)
    requires At(t, p).Some? && e in At(t, p).value.arrayEdges
    ensures exists s: nat ::
              s < |paths| && |p| < |paths[s]| && paths[s][..|p|] == p && paths[s][|p|] == Index(e.index)
  {
    var node, g := At(t, p).value, Index(e.index);
    assert GoodNode(node, |paths|, edgeCount);
    var i :| 0 <= i < |node.arrayEdges| && node.arrayEdges[i] == e;
    ElementStep(node, i);
    AtConcat(t, p, [g]);
    assert [g][1..] == [];
    assert At(t, p + [g]) == Some(e.child);
    assert GoodNode(e.child, |paths|, edgeCount);
    var s := e.child.first;
    var q :| HasSlot(e.child, q, s);
    AtConcat(t, p + [g], q);
    assert HasSlot(t, p + [g] + q, s);
    assert paths[s] == p + [g] + q;
    assert paths[s][..|p|] == p && paths[s][|p|] == g;
  }

  lemma EdgeOfRequest(t: Trie, paths: seq<Path>, p: Path, s: nat)
    requires Holds(t, paths) && At(t, p).Some?
    requires s < |paths| && |p| < |paths[s]| && paths[s][..|p|] == p && paths[s][|p|].Index?
    ensures exists e :: e in At(t, p).value.arrayEdges && e.index == paths[s][|p|].index
  {
    var node, j := At(t, p).value, paths[s][|p|].index;
    assert HasSlot(t, paths[s], s);
    var rest := paths[s][|p|..];
    assert paths[s] == p + rest;
    AtConcat(t, p, rest);
    assert Step(node, Index(j)).Some?;
    assert node.arrayEdges[FindIndex(node.arrayEdges, j)] in node.arrayEdges;
  }

  lemma HiddenIsShadowed(v: Value, t: Trie, paths: seq<Path>, slot: nat, edgeCount: nat)
    requires WellFormed(t, |paths|, edgeCount) && Holds(t, paths) && slot < |paths|
    ensures Hidden(v, t, paths[slot]) <==> Shadowed(v, paths, slot)
  {
    var path := paths[slot];
    assert HasSlot(t, path, slot);
    HiddenUnfolds(v, t, path);
    forall k: nat | FallsShort(v, path, k)
      ensures HiddenAt(v, t, path, k) <==> exists other: nat :: ShadowedAt(v, paths, slot, k, other)
    {
      AtConcat(t, path[..k], path[k..]);
      assert path == path[..k] + path[k..];
      ShadowIsRequest(v, t, paths, slot, k, edgeCount);
    }
    assert forall k: nat, other: nat :: ShadowedAt(v, paths, slot, k, other) ==> FallsShort(v, path, k);
    if k: nat, other: nat :| ShadowedAt(v, paths, slot, k, other) {
      assert HiddenAt(v, t, path, k);
    }
  }

  lemma ShadowIsRequest(v: Value, t: Trie, paths: seq<Path>, slot: nat, k: nat, edgeCount: nat)
    requires WellFormed(t, |paths|, edgeCount) && Holds(t, paths) && slot < |paths|
    requires FallsShort(v, paths[slot], k) && At(t, paths[slot][..k]).Some?
    ensures HiddenAt(v, t, paths[slot], k) <==> exists other: nat :: ShadowedAt(v, paths, slot, k, other)
  {
    var path := paths[slot];
    var node := At(t, path[..k]).value;
    var length := |NodeAt(v, path[..k]).value.elements|;
    if HiddenAt(v, t, path, k) {
      var e :| e in node.arrayEdges && length <= e.index < path[k].index;
      EdgeHasRequest(t, paths, path[..k], e.index, edgeCount);
      var s: nat :| s < |paths| && k < |paths[s]| && paths[s][..k] == path[..k] && paths[s][k] == Index(e.index);
      assert ShadowedAt(v, paths, slot, k, s);
    }
    if other: nat :| ShadowedAt(v, paths, slot, k, other) {
      EdgeHasRequest(t, paths, path[..k], paths[other][k].index, edgeCount);
    }
  }

  // ---- Every failing projection has a visible failure

  lemma {:induction false} ShortRequestIsVisible(v: Value, paths: seq<Path>, slot: nat, k: nat)
    requires slot < |paths| && FallsShort(v, paths[slot], k)
    ensures exists f :: Visible(v, paths, f)
    decreases paths[slot][k].index
  {
    if Shadowed(v, paths, slot) {
      var m: nat, other: nat :| ShadowedAt(v, paths, slot, m, other);
      FallsShortOnce(v, paths[slot], k, m);
      ShortRequestIsVisible(v, paths, other, k);
    } else {
      LookupFallsShort(v, paths[slot], k);
      assert Visible(v, paths, Failure(IndexOutOfBounds, slot));
    }
  }

  lemma FailureIsVisible(v: Value, paths: seq<Path>, slot: nat)
    requires slot < |paths| && Lookup(v, paths[slot]).Failed?
    ensures exists f :: Visible(v, paths, f)
  {
    if Shadowed(v, paths, slot) {
      var k: nat, other: nat :| ShadowedAt(v, paths, slot, k, other);
      ShortRequestIsVisible(v, paths, slot, k);
    } else {
      assert Visible(v, paths, Failure(Lookup(v, paths[slot]).code, slot));
    }
  }

  // ---- The walk against the paths

  lemma SeenIsVisible(v: Value, t: Trie, paths: seq<Path>, f: Failure, edgeCount: nat)
    requires WellFormed(t, |paths|, edgeCount) && Holds(t, paths)
    ensures SeenIn(v, t, f) <==> Visible(v, paths, f)
  {
    if f.slot < |paths| {
      HiddenIsShadowed(v, t, paths, f.slot, edgeCount);
      assert HasSlot(t, paths[f.slot], f.slot);
      assert SeenAt(v, t, paths[f.slot], f) <==> Visible(v, paths, f);
    }
  }

  lemma FoundIsLookup(v: Value, t: Trie, paths: seq<Path>, w: (nat, Slot))
    requires Holds(t, paths)
    ensures FoundIn(v, t, w) <==> w.0 < |paths| && Lookup(v, paths[w.0]) == Found(w.1)
  {
    if w.0 < |paths| {
      assert HasSlot(t, paths[w.0], w.0);
      assert FoundAt(v, t, paths[w.0], w.0, w.1) <==> Lookup(v, paths[w.0]) == Found(w.1);
    }
  }

  function Fresh(slotCount: nat, edgeCount: nat): WalkState {
    WalkState(seq(slotCount, _ => Empty), seq(slotCount, _ => 0), seq(edgeCount, _ => false), None)
  }

  ghost function OutcomeOf(r: Walked): Outcome {
    match r
    case Hard(code, _) => HardStop(code)
    case Done(st) => if st.pending.Some? then PathFailure(st.pending.value) else Filled(st.slots)
  }

  /** One guided walk over a fresh state decides exactly what the independent lookups say:
    * a hard failure of the document comes first, then the least visible path failure; otherwise
    * every slot holds its own path's scalar and was written exactly once. */
  lemma WalkIsProjection(v: Value, t: Trie, paths: seq<Path>, edgeCount: nat, depth: nat)
    requires WellFormed(t, |paths|, edgeCount) && Holds(t, paths)
    ensures
      var r := WalkValue(v, t, Fresh(|paths|, edgeCount), depth);
      && (r.Hard? <==> HardFailure(v, depth).Some?)
      && (r.Hard? ==> HardFailure(v, depth) == Some(r.code))
      && (r.Done? ==> Projects(v, paths, OutcomeOf(r)))
      && (r.Done? && r.state.pending.None? ==>
            AllFound(v, paths) && r.state.writes == seq(|paths|, _ => 1))
      && (r.Done? && r.state.pending.Some? ==> !AllFound(v, paths))
  {
    var st := Fresh(|paths|, edgeCount);
    WalkAgrees(v, t, st, depth, |paths|, edgeCount);
    var r := WalkValue(v, t, st, depth);
    if r.Done? {
      forall f ensures SeenIn(v, t, f) <==> Visible(v, paths, f) {
        SeenIsVisible(v, t, paths, f, edgeCount);
      }
      hide WellFormed, Holds, Shadowed, HardFailure, WalkValue;
      FinalState(v, t, paths, st, r.state);
    }
  }

  lemma FinalState(v: Value, t: Trie, paths: seq<Path>, st: WalkState, after: WalkState)
    requires Holds(t, paths)
    requires forall f :: SeenIn(v, t, f) <==> Visible(v, paths, f)
    requires st.pending.None? && |st.slots| == |paths|
    requires forall s: nat :: s < |st.slots| ==> |st.writes| == |st.slots| && st.writes[s] == 0
    requires Causes(st, after, EffectOf(v, t))
    ensures Projects(v, paths, OutcomeOf(Done(after)))
    ensures after.pending.None? <==> AllFound(v, paths)
    ensures after.pending.None? ==> after.writes == seq(|paths|, _ => 1)
  {
    if after.pending.None? {
      assert forall f :: Visible(v, paths, f) ==> f in EffectOf(v, t).seen;
      assert forall f :: !Visible(v, paths, f);
      forall s: nat | s < |paths| ensures Lookup(v, paths[s]) == Found(after.slots[s]) && after.writes[s] == 1 {
        if Lookup(v, paths[s]).Failed? {
          FailureIsVisible(v, paths, s);
          assert false;
        } else {
          FoundIsLookup(v, t, paths, (s, Lookup(v, paths[s]).slot));
          assert (s, Lookup(v, paths[s]).slot) in EffectOf(v, t).found;
        }
      }
    } else {
      var f := after.pending.value;
      assert f in EffectOf(v, t).seen;
      forall g | Visible(v, paths, g) ensures f.slot <= g.slot {
        assert g in EffectOf(v, t).seen;
      }
    }
  }

  /** Two requested indices beyond the end of the same array. */
  ghost predicate MissesTwice(v: Value, paths: seq<Path>) {
    exists slot: nat :: slot < |paths| && Shadowed(v, paths, slot)
  }

  /** The least slot whose path fails on its own. */
  ghost predicate LeastFailing(v: Value, paths: seq<Path>, least: nat) {
    && least < |paths| && Lookup(v, paths[least]).Failed?
    && forall s: nat :: s < least ==> Lookup(v, paths[s]).Found?
  }

  lemma {:induction false} LeastFailingExists(v: Value, paths: seq<Path>, slot: nat) returns (least: nat)
    requires slot < |paths| && Lookup(v, paths[slot]).Failed?
    ensures LeastFailing(v, paths, least) && least <= slot
    decreases slot
  {
    if s: nat :| s < slot && Lookup(v, paths[s]).Failed? {
      least := LeastFailingExists(v, paths, s);
    } else {
      least := slot;
    }
  }

  /** The reported slot is the least failing slot if and only if that one is not shadowed. */
  lemma LeastIsReportedIffNotShadowed(v: Value, paths: seq<Path>, f: Failure)
    requires Projects(v, paths, PathFailure(f))
    ensures exists least :: LeastFailing(v, paths, least)
    ensures forall least :: LeastFailing(v, paths, least) ==>
              ((forall s: nat :: s < |paths| && Lookup(v, paths[s]).Failed? ==> f.slot <= s)
               <==> !Shadowed(v, paths, least))
  {
    var some := LeastFailingExists(v, paths, f.slot);
    forall least | LeastFailing(v, paths, least)
      ensures (forall s: nat :: s < |paths| && Lookup(v, paths[s]).Failed? ==> f.slot <= s)
              <==> !Shadowed(v, paths, least)
    {
      LeastIsReported(v, paths, f, least);
    }
  }

  lemma LeastIsReported(v: Value, paths: seq<Path>, f: Failure, least: nat)
    requires Projects(v, paths, PathFailure(f)) && LeastFailing(v, paths, least)
    ensures (forall s: nat :: s < |paths| && Lookup(v, paths[s]).Failed? ==> f.slot <= s)
            <==> !Shadowed(v, paths, least)
  {
    var code := Lookup(v, paths[least]).code;
    assert Visible(v, paths, Failure(code, least)) <==> !Shadowed(v, paths, least);
    assert f.slot >= least;
  }

  /** In particular it is when no array misses two requested indices. */
  lemma PlainMinimum(v: Value, paths: seq<Path>, f: Failure)
    requires Projects(v, paths, PathFailure(f)) && !MissesTwice(v, paths)
    ensures forall s: nat :: s < |paths| && Lookup(v, paths[s]).Failed? ==> f.slot <= s
  {
    var least := LeastFailingExists(v, paths, f.slot);
    LeastIsReported(v, paths, f, least);
  }

  /** Missing twice does no harm when the smaller index has the smaller slot. */
  lemma MissesTwiceAndReportsTheLeast()
    ensures
      var v := Array([Null, Null]);
      var paths := [[Index(3)], [Index(5)]];
      && MissesTwice(v, paths)
      && Projects(v, paths, PathFailure(Failure(IndexOutOfBounds, 0)))
  {
    var v := Array([Null, Null]);
    var paths: seq<Path> := [[Index(3)], [Index(5)]];
    assert paths[0][..0] == [] && paths[1][..0] == [];
    assert ShadowedAt(v, paths, 1, 0, 0);
    assert Shadowed(v, paths, 1) && !Shadowed(v, paths, 0);
    assert Visible(v, paths, Failure(IndexOutOfBounds, 0));
  }

  /** With two misses it need not be: slot 0 asks for index 5 and slot 1 for index 3 of an array
    * of two, and only slot 1 is reported. */
  lemma NotAlwaysTheLeast()
    ensures
      var v := Array([Null, Null]);
      var paths := [[Index(5)], [Index(3)]];
      && Lookup(v, paths[0]).Failed?
      && Projects(v, paths, PathFailure(Failure(IndexOutOfBounds, 1)))
      && forall f :: Projects(v, paths, PathFailure(f)) ==> f.slot != 0
  {
    var v := Array([Null, Null]);
    var paths: seq<Path> := [[Index(5)], [Index(3)]];
    assert paths[0][..0] == [] && paths[1][..0] == [];
    assert ShadowedAt(v, paths, 0, 0, 1);
    assert !Shadowed(v, paths, 1);
    assert Visible(v, paths, Failure(IndexOutOfBounds, 1));
  }
}
