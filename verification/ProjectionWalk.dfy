/** The single guided walk as a state transformer, and what it does to its state. */
module ProjectionWalk {
  import opened Arithmetic
  import opened Json
  import opened Validation
  import opened ProjectionSpec
  import opened ProjectionTrie

  /** The mutable part of a traversal: slots, how often each was written, satisfied-edge flags,
    * and the pending path failure. */
  datatype WalkState = WalkState(slots: seq<Slot>, writes: seq<nat>, satisfied: seq<bool>,
                                 pending: Option<Failure>)

  datatype Walked = Done(state: WalkState) | Hard(code: StatusCode, slot: nat)

  ghost function Record(pending: Option<Failure>, code: StatusCode, slot: nat): Option<Failure> {
    if slot == SLOT_UNAVAILABLE then pending
    else if pending.None? || slot < pending.value.slot then Some(Failure(code, slot))
    else pending
  }

  function FirstOfObjectEdges(edges: seq<ObjectEdge>): nat {
    if edges == [] then SLOT_UNAVAILABLE
    else Min(edges[0].child.first, FirstOfObjectEdges(edges[1..]))
  }

  function FirstOfArrayEdges(edges: seq<ArrayEdge>): nat {
    if edges == [] then SLOT_UNAVAILABLE
    else Min(edges[0].child.first, FirstOfArrayEdges(edges[1..]))
  }

  function FirstTerminal(t: Trie): nat {
    if t.terminals == [] then SLOT_UNAVAILABLE else t.terminals[0]
  }

  // Slots and flags outside the arrays are never addressed; the guard keeps the function total.
  ghost function Fill(st: WalkState, terminals: seq<nat>, slot: Slot): WalkState
    decreases |terminals|
  {
    if terminals == [] then st
    else
      var s := terminals[0];
      var st' := if s < |st.slots| && s < |st.writes|
                 then st.(slots := st.slots[s := slot], writes := st.writes[s := st.writes[s] + 1])
                 else st;
      Fill(st', terminals[1..], slot)
  }

  ghost predicate Satisfied(st: WalkState, id: nat) {
    id < |st.satisfied| && st.satisfied[id]
  }

  ghost function Satisfy(st: WalkState, id: nat): WalkState {
    if id < |st.satisfied| then st.(satisfied := st.satisfied[id := true]) else st
  }

  ghost function WalkValue(v: Value, t: Trie, st: WalkState, depth: nat): (r: Walked)
    ensures r.Hard? ==> r.code != OK && r.code != Cancelled
    decreases v, 2
  {
    if depth > MAX_DEPTH then Hard(InvalidJson, SLOT_UNAVAILABLE)
    else WalkContent(v, t, st, depth)
  }

  ghost function WalkContent(v: Value, t: Trie, st: WalkState, depth: nat): (r: Walked)
    ensures r.Hard? ==> r.code != OK && r.code != Cancelled
    decreases v, 1
  {
    match v
    case Object(fields) =>
      WalkFields(fields, t, EnterObject(t, st), depth)
    case Array(elements) =>
      WalkElements(elements, t, EnterArray(t, st), depth, 0, 0)
    case Unreadable(e) => Hard(ProjectionStatus(e), SLOT_UNAVAILABLE)
    case _ => WalkScalar(v, t, EnterScalar(t, st))
  }

  ghost function EnterObject(t: Trie, st: WalkState): WalkState {
    st.(pending := Record(Record(st.pending, IncorrectType, FirstTerminal(t)),
                          IncorrectType, FirstOfArrayEdges(t.arrayEdges)))
  }

  ghost function EnterArray(t: Trie, st: WalkState): WalkState {
    st.(pending := Record(Record(st.pending, IncorrectType, FirstTerminal(t)),
                          IncorrectType, FirstOfObjectEdges(t.objectEdges)))
  }

  ghost function EnterScalar(t: Trie, st: WalkState): WalkState {
    st.(pending := Record(st.pending, IncorrectType,
                          Min(FirstOfObjectEdges(t.objectEdges), FirstOfArrayEdges(t.arrayEdges))))
  }

  ghost function WalkScalar(v: Value, t: Trie, st: WalkState): (r: Walked)
    requires !v.Container()
    ensures r.Hard? ==> r.code != OK && r.code != Cancelled
  {
    if ScalarFailure(v).Some? then Hard(ScalarFailure(v).value, FirstTerminal(t))
    else Done(Fill(st, t.terminals, SlotOf(v)))
  }

  ghost function Skip(v: Value, st: WalkState, depth: nat): (r: Walked)
    ensures r.Hard? ==> r.code != OK && r.code != Cancelled
  {
    var failure := HardFailure(v, depth);
    if failure.Some? then Hard(failure.value, SLOT_UNAVAILABLE) else Done(st)
  }

  ghost function WalkFields(fields: seq<Field>, t: Trie, st: WalkState, depth: nat): (r: Walked)
    ensures r.Hard? ==> r.code != OK && r.code != Cancelled
    decreases fields, 0
  {
    if fields == [] then
      Done(st.(pending := RecordMissing(t.objectEdges, st, st.pending)))
    else
      var r := WalkField(fields[0], t, st, depth);
      if r.Hard? then r else WalkFields(fields[1..], t, r.state, depth)
  }

  ghost function WalkField(field: Field, t: Trie, st: WalkState, depth: nat): (r: Walked)
    ensures r.Hard? ==> r.code != OK && r.code != Cancelled
    decreases field, 0
  {
    match field
    case BadField(e) => Hard(ProjectionStatus(e), SLOT_UNAVAILABLE)
    case Field(key, v) =>
      var i := FindKey(t.objectEdges, key);
      if i < |t.objectEdges| && !Satisfied(st, t.objectEdges[i].executionId) then
        WalkValue(v, t.objectEdges[i].child, Satisfy(st, t.objectEdges[i].executionId), depth + 1)
      else
        Skip(v, st, depth + 1)
  }

  ghost function RecordMissing(edges: seq<ObjectEdge>, st: WalkState, pending: Option<Failure>)
    : Option<Failure>
  {
    if edges == [] then pending
    else
      RecordMissing(edges[1..], st,
                    if Satisfied(st, edges[0].executionId) then pending
                    else Record(pending, MissingField, edges[0].child.first))
  }

  ghost function WalkElements(elements: seq<Value>, t: Trie, st: WalkState, depth: nat,
                              requested: nat, index: nat): (r: Walked)
    ensures r.Hard? ==> r.code != OK && r.code != Cancelled
    decreases elements, 0
  {
    if elements == [] then
      Done(if requested < |t.arrayEdges|
           then st.(pending := Record(st.pending, IndexOutOfBounds,
                                      t.arrayEdges[requested].child.first))
           else st)
    else if requested < |t.arrayEdges| && t.arrayEdges[requested].index == index then
      var r := WalkValue(elements[0], t.arrayEdges[requested].child, st, depth + 1);
      if r.Hard? then r
      else WalkElements(elements[1..], t, r.state, depth, requested + 1, index + 1)
    else
      var r := Skip(elements[0], st, depth + 1);
      if r.Hard? then r
      else WalkElements(elements[1..], t, r.state, depth, requested, index + 1)
  }

  /** The root of a document is walked without comparing its own depth with the bound, and a scalar
    * root is read but never selected. */
  ghost function WalkDocument(v: Value, t: Trie, st: WalkState): (r: Walked)
    ensures r.Hard? ==> r.code != OK && r.code != Cancelled
  {
    if v.Container() || v.Unreadable? then WalkContent(v, t, st, 1)
    else if ScalarFailure(v).Some? then Hard(ScalarFailure(v).value, SLOT_UNAVAILABLE)
    else Done(st.(pending := Record(st.pending, IncorrectType, t.first)))
  }
}
