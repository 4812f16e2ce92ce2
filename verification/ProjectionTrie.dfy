/** A compiled plan as the tree its node pointers form. */
module ProjectionTrie {
  import opened Json
  import opened ProjectionSpec

  datatype ObjectEdge = ObjectEdge(key: Bytes, child: Trie, executionId: nat)

  datatype ArrayEdge = ArrayEdge(index: nat, child: Trie)

  datatype Trie = Trie(objectEdges: seq<ObjectEdge>, arrayEdges: seq<ArrayEdge>,
                       terminals: seq<nat>, first: nat)

  // ---- Byte order of keys

  ghost predicate Less(a: Bytes, b: Bytes) {
    if b == [] then false
    else if a == [] then true
    else if a[0] != b[0] then a[0] < b[0]
    else Less(a[1..], b[1..])
  }

  lemma {:induction false} LessIsStrictOrder(a: Bytes, b: Bytes, c: Bytes)
    ensures !Less(a, a)
    ensures Less(a, b) ==> !Less(b, a) && a != b
    ensures a == b || Less(a, b) || Less(b, a)
    ensures Less(a, b) && Less(b, c) ==> Less(a, c)
  {
    if a != [] && b != [] && a[0] == b[0] {
      assert a == [a[0]] + a[1..] && b == [b[0]] + b[1..];
      LessIsStrictOrder(a[1..], b[1..], if c == [] then [] else c[1..]);
    } else if a != [] {
      LessIsStrictOrder(a[1..], a[1..], []);
    }
    LessIrreflexive(a);
  }

  lemma {:induction false} LessIrreflexive(a: Bytes)
    ensures !Less(a, a)
  {
    if a != [] {
      LessIrreflexive(a[1..]);
    }
  }

  method ByteLess(left: Bytes, right: Bytes) returns (less: bool)
    ensures less == Less(left, right)
  {
    var shared := if |left| < |right| then |left| else |right|;
    for index := 0 to shared
      invariant Less(left, right) == Less(left[index..], right[index..])
    {
      if left[index] != right[index] {
        return left[index] < right[index];
      }
      assert left[index..][1..] == left[index + 1..] && right[index..][1..] == right[index + 1..];
    }
    less := |left| < |right|;
  }

  // ---- Edges and nodes reached by a path

  function FindKey(edges: seq<ObjectEdge>, key: Bytes): (i: nat)
    ensures i <= |edges|
    ensures i < |edges| ==> edges[i].key == key
    ensures forall j :: 0 <= j < i ==> edges[j].key != key
  {
    if edges == [] || edges[0].key == key then 0 else 1 + FindKey(edges[1..], key)
  }

  function FindIndex(edges: seq<ArrayEdge>, index: nat): (i: nat)
    ensures i <= |edges|
    ensures i < |edges| ==> edges[i].index == index
    ensures forall j :: 0 <= j < i ==> edges[j].index != index
  {
    if edges == [] || edges[0].index == index then 0 else 1 + FindIndex(edges[1..], index)
  }

  ghost function Step(t: Trie, segment: Segment): (r: Option<Trie>)
    ensures r.Some? ==> r.value < t
  {
    match segment
    case Key(key) =>
      var i := FindKey(t.objectEdges, key);
      if i < |t.objectEdges| then Some(t.objectEdges[i].child) else None
    case Index(index) =>
      var i := FindIndex(t.arrayEdges, index);
      if i < |t.arrayEdges| then Some(t.arrayEdges[i].child) else None
  }

  ghost function At(t: Trie, path: Path): Option<Trie>
    decreases |path|
  {
    if path == [] then Some(t)
    else
      var next := Step(t, path[0]);
      if next.None? then None else At(next.value, path[1..])
  }

  ghost predicate HasSlot(t: Trie, path: Path, slot: nat) {
    At(t, path).Some? && slot in At(t, path).value.terminals
  }

  ghost predicate HasEdge(t: Trie, path: Path, i: nat, id: nat) {
    && At(t, path).Some?
    && i < |At(t, path).value.objectEdges|
    && At(t, path).value.objectEdges[i].executionId == id
  }

  ghost predicate OwnsSlot(t: Trie, slot: nat) {
    exists path :: HasSlot(t, path, slot)
  }

  ghost predicate OwnsEdge(t: Trie, id: nat) {
    exists path, i: nat :: HasEdge(t, path, i, id)
  }

  // ---- Well-formed plans

  ghost predicate SortedEdges(t: Trie) {
    && (forall i, j :: 0 <= i < j < |t.objectEdges| ==> Less(t.objectEdges[i].key, t.objectEdges[j].key))
    && (forall i, j :: 0 <= i < j < |t.arrayEdges| ==> t.arrayEdges[i].index < t.arrayEdges[j].index)
    && (forall i, j :: 0 <= i < j < |t.terminals| ==> t.terminals[i] < t.terminals[j])
  }

  /** The cached first slot is the least slot of the subtree, and there is one. */
  ghost predicate FirstIsLeast(t: Trie) {
    && OwnsSlot(t, t.first)
    && (forall path, s :: HasSlot(t, path, s) ==> t.first <= s)
  }

  ghost predicate GoodNode(t: Trie, slotCount: nat, edgeCount: nat) {
    && SortedEdges(t)
    && FirstIsLeast(t)
    && (forall s :: s in t.terminals ==> s < slotCount)
    && (forall e :: e in t.objectEdges ==> e.executionId < edgeCount)
  }

  ghost predicate WellFormed(t: Trie, slotCount: nat, edgeCount: nat) {
    && slotCount <= SLOT_UNAVAILABLE
    && (forall path :: At(t, path).Some? ==> GoodNode(At(t, path).value, slotCount, edgeCount))
    && (forall p, q, s :: HasSlot(t, p, s) && HasSlot(t, q, s) ==> p == q)
    && (forall p, q, i: nat, j: nat, id ::
          HasEdge(t, p, i, id) && HasEdge(t, q, j, id) ==> p == q && i == j)
  }

  /** The plan holds exactly the given slot-to-path map. */
  ghost predicate Holds(t: Trie, paths: seq<Path>) {
    forall path, s: nat :: HasSlot(t, path, s) <==> s < |paths| && paths[s] == path
  }

  lemma AtCons(t: Trie, segment: Segment, path: Path)
    requires Step(t, segment).Some?
    ensures At(t, [segment] + path) == At(Step(t, segment).value, path)
  {
    assert ([segment] + path)[1..] == path;
  }

  lemma {:induction false} AtConcat(t: Trie, p: Path, q: Path)
    ensures At(t, p + q) == if At(t, p).None? then None else At(At(t, p).value, q)
    decreases |p|
  {
    if p == [] {
      assert p + q == q;
    } else {
      assert (p + q)[1..] == p[1..] + q;
      if Step(t, p[0]).Some? {
        AtConcat(Step(t, p[0]).value, p[1..], q);
      }
    }
  }

  lemma ChildIsWellFormed(t: Trie, segment: Segment, slotCount: nat, edgeCount: nat)
    requires WellFormed(t, slotCount, edgeCount)
    requires Step(t, segment).Some?
    ensures WellFormed(Step(t, segment).value, slotCount, edgeCount)
  {
    var child := Step(t, segment).value;
    forall path ensures At(t, [segment] + path) == At(child, path) {
      AtCons(t, segment, path);
    }
    forall p, q, s | HasSlot(child, p, s) && HasSlot(child, q, s) ensures p == q {
      assert HasSlot(t, [segment] + p, s) && HasSlot(t, [segment] + q, s);
      assert ([segment] + p)[1..] == ([segment] + q)[1..];
      assert ([segment] + p)[1..] == p && ([segment] + q)[1..] == q;
    }
    forall p, q, i: nat, j: nat, id | HasEdge(child, p, i, id) && HasEdge(child, q, j, id)
      ensures p == q && i == j
    {
      assert HasEdge(t, [segment] + p, i, id) && HasEdge(t, [segment] + q, j, id);
      assert ([segment] + p)[1..] == p && ([segment] + q)[1..] == q;
    }
  }

  /** Sorted edges are found by their own key: the search and the position agree. */
  lemma EdgeStep(t: Trie, i: nat)
    requires SortedEdges(t) && i < |t.objectEdges|
    ensures FindKey(t.objectEdges, t.objectEdges[i].key) == i
    ensures Step(t, Key(t.objectEdges[i].key)) == Some(t.objectEdges[i].child)
  {
    var j := FindKey(t.objectEdges, t.objectEdges[i].key);
    if j < i {
      LessIrreflexive(t.objectEdges[i].key);
    }
  }

  lemma ElementStep(t: Trie, i: nat)
    requires SortedEdges(t) && i < |t.arrayEdges|
    ensures FindIndex(t.arrayEdges, t.arrayEdges[i].index) == i
    ensures Step(t, Index(t.arrayEdges[i].index)) == Some(t.arrayEdges[i].child)
  {
  }
}
