/** The engine itself: cancellable loops over the document that fill caller-owned arrays. */
module ProjectionEngine {
  import opened Arithmetic
  import opened Json
  import opened Validation
  import opened ProjectionSpec
  import opened ProjectionTrie
  import opened SortedSearch
  import opened ProjectionWalk
  import opened ProjectionSound
  import opened ProjectionCorrect

  /** A status with the output slot it blames. */
  datatype Status = Status(code: StatusCode, slot: nat)

  const STATUS_OK := Status(OK, SLOT_UNAVAILABLE)

  const STATUS_CANCELLED := Status(Cancelled, SLOT_UNAVAILABLE)

  method SearchEdge(edges: seq<ObjectEdge>, key: Bytes) returns (position: nat)
    requires forall i, j :: 0 <= i < j < |edges| ==> Less(edges[i].key, edges[j].key)
    ensures position == FindKey(edges, key)
  {
    var keys := seq(|edges|, i requires 0 <= i < |edges| => edges[i].key);
    position := LowerBoundKey(keys, key);
    LessIrreflexive(key);
    assert forall i :: 0 <= i < |edges| ==> keys[i] == edges[i].key;
    if !(position < |edges| && edges[position].key == key) {
      assert forall i :: position < i < |edges| ==> Less(keys[position], keys[i]);
      position := |edges|;
    }
  }

  // ---- The traversal

  class Traversal {
    const cancellation: Cancellation
    const resultSlots: array<Slot>
    const satisfied: array<bool>
    var pending: Option<Failure>
    ghost var writes: seq<nat>

    constructor (cancellation: Cancellation, resultSlots: array<Slot>, satisfied: array<bool>)
      ensures this.cancellation == cancellation
      ensures this.resultSlots == resultSlots && this.satisfied == satisfied
      ensures pending == None && writes == seq(resultSlots.Length, _ => 0)
    {
      this.cancellation := cancellation;
      this.resultSlots := resultSlots;
      this.satisfied := satisfied;
      pending := None;
      writes := seq(resultSlots.Length, _ => 0);
    }

    ghost predicate Valid()
      reads this
    {
      |writes| == resultSlots.Length
    }

    ghost function State(): WalkState
      reads this, resultSlots, satisfied
    {
      WalkState(resultSlots[..], writes, satisfied[..], pending)
    }

    // The status and the state after a call are those of the walk `r`.
    ghost predicate Follows(status: Status, r: Walked)
      reads this, resultSlots, satisfied
    {
      if r.Hard? then status == Status(r.code, r.slot)
      else status.code == OK && State() == r.state
    }

    method RecordPathFailure(code: StatusCode, slot: nat)
      modifies this`pending
      ensures pending == Record(old(pending), code, slot)
      ensures slot == SLOT_UNAVAILABLE ==> pending == old(pending)
      ensures slot != SLOT_UNAVAILABLE ==>
                && pending.Some?
                && pending.value.slot == (if old(pending).Some? then Min(old(pending).value.slot, slot) else slot)
                && (pending == old(pending) || pending.value == Failure(code, slot))
    {
      if slot == SLOT_UNAVAILABLE {
        return;
      }
      if pending.None? || slot < pending.value.slot {
        pending := Some(Failure(code, slot));
      }
    }

    method MaterializeScalar(v: Value, t: Trie) returns (status: Status)
      requires Valid() && !v.Container() && !v.Unreadable?
      requires forall s :: s in t.terminals ==> s < resultSlots.Length
      modifies this, cancellation, resultSlots
      ensures Valid() && old(cancellation.checks) <= cancellation.checks
      ensures status.code != Cancelled <==> cancellation.QuietSince(old(cancellation.checks))
      ensures status.code != Cancelled ==> Follows(status, WalkScalar(v, t, old(State())))
    {
      var cancelled := cancellation.Requested();
      if cancelled {
        return STATUS_CANCELLED;
      }
      var code := CheckScalar(v);
      if code != OK {
        return Status(code, FirstTerminal(t));
      }
      var materialized := Materialize(v);
      status := FillTerminals(t.terminals, materialized);
    }

    method FillTerminals(terminals: seq<nat>, materialized: Slot) returns (status: Status)
      requires Valid()
      requires forall s :: s in terminals ==> s < resultSlots.Length
      modifies this, cancellation, resultSlots
      ensures Valid() && old(cancellation.checks) <= cancellation.checks
      ensures status.code != Cancelled <==> cancellation.QuietSince(old(cancellation.checks))
      ensures status.code != Cancelled ==>
                status.code == OK && State() == Fill(old(State()), terminals, materialized)
    {
      ghost var start := State();
      assert terminals[0..] == terminals;
      for k := 0 to |terminals|
        invariant Valid() && old(cancellation.checks) <= cancellation.checks
        invariant cancellation.QuietSince(old(cancellation.checks))
        invariant Fill(start, terminals, materialized) == Fill(State(), terminals[k..], materialized)
      {
        var cancelled := cancellation.Requested();
        if cancelled {
          return STATUS_CANCELLED;
        }
        var s := terminals[k];
        assert s in terminals && terminals[k..][1..] == terminals[k + 1..];
        ghost var before := State();
        resultSlots[s] := materialized;
        writes := writes[s := writes[s] + 1];
        assert State() == before.(slots := before.slots[s := materialized],
                                  writes := before.writes[s := before.writes[s] + 1]);
      }
      assert terminals[|terminals|..] == [];
      status := STATUS_OK;
    }

    method TraverseValue(v: Value, t: Trie, depth: nat) returns (status: Status)
      requires Valid() && WellFormed(t, resultSlots.Length, satisfied.Length)
      modifies this, cancellation, resultSlots, satisfied
      ensures Valid() && old(cancellation.checks) <= cancellation.checks
      ensures status.code != Cancelled <==> cancellation.QuietSince(old(cancellation.checks))
      ensures status.code != Cancelled ==> Follows(status, WalkValue(v, t, old(State()), depth))
      decreases v, 2
    {
      hide WellFormed, WalkFields, WalkElements, ScalarFailure, Fill;
      if depth > MAX_DEPTH {
        return Status(InvalidJson, SLOT_UNAVAILABLE);
      }
      var cancelled := cancellation.Requested();
      if cancelled {
        return STATUS_CANCELLED;
      }
      match v {
        case Object(fields) =>
          status := TraverseObject(fields, t, depth);
        case Array(elements) =>
          status := TraverseArray(elements, t, depth);
        case Unreadable(e) =>
          status := Status(ProjectionStatus(e), SLOT_UNAVAILABLE);
        case _ =>
          status := TraverseScalar(v, t);
      }
    }

    method TraverseScalar(v: Value, t: Trie) returns (status: Status)
      requires Valid() && WellFormed(t, resultSlots.Length, satisfied.Length) && !v.Container() && !v.Unreadable?
      modifies this, cancellation, resultSlots
      ensures Valid() && old(cancellation.checks) <= cancellation.checks
      ensures status.code != Cancelled <==> cancellation.QuietSince(old(cancellation.checks))
      ensures status.code != Cancelled ==> Follows(status, WalkScalar(v, t, EnterScalar(t, old(State()))))
    {
      hide WellFormed, ScalarFailure, Fill;
      TerminalsFit(t, resultSlots.Length, satisfied.Length);
      RecordPathFailure(IncorrectType,
                        Min(FirstOfObjectEdges(t.objectEdges), FirstOfArrayEdges(t.arrayEdges)));
      assert State() == EnterScalar(t, old(State()));
      status := MaterializeScalar(v, t);
    }

    // An object ends every path that stops here or asks for an element.
    method RecordForObject(t: Trie)
      modifies this`pending
      ensures State() == EnterObject(t, old(State()))
    {
      if t.terminals != [] {
        RecordPathFailure(IncorrectType, t.terminals[0]);
      }
      RecordPathFailure(IncorrectType, FirstOfArrayEdges(t.arrayEdges));
    }

    method TraverseObject(fields: seq<Field>, t: Trie, depth: nat) returns (status: Status)
      requires Valid() && WellFormed(t, resultSlots.Length, satisfied.Length)
      modifies this, cancellation, resultSlots, satisfied
      ensures Valid() && old(cancellation.checks) <= cancellation.checks
      ensures status.code != Cancelled <==> cancellation.QuietSince(old(cancellation.checks))
      ensures status.code != Cancelled ==>
                Follows(status, WalkFields(fields, t, EnterObject(t, old(State())), depth))
      decreases fields, 1
    {
      hide WellFormed, WalkValue, WalkField, RecordMissing, EnterObject, HardFailure, Less;
      RecordForObject(t);
      ghost var entered := State();
      assert fields[0..] == fields;
      for i := 0 to |fields|
        invariant Valid() && old(cancellation.checks) <= cancellation.checks
        invariant cancellation.QuietSince(old(cancellation.checks))
        invariant WalkFields(fields, t, entered, depth) == WalkFields(fields[i..], t, State(), depth)
      {
        var cancelled := cancellation.Requested();
        if cancelled {
          return STATUS_CANCELLED;
        }
        assert fields[i..][1..] == fields[i + 1..];
        status := TraverseNextField(fields[i], t, depth);
        if status.code != OK {
          return;
        }
      }
      RecordMissingFields(t);
      status := STATUS_OK;
    }

    method TraverseNextField(field: Field, t: Trie, depth: nat) returns (status: Status)
      requires Valid() && WellFormed(t, resultSlots.Length, satisfied.Length)
      modifies this, cancellation, resultSlots, satisfied
      ensures Valid() && old(cancellation.checks) <= cancellation.checks
      ensures status.code != Cancelled <==> cancellation.QuietSince(old(cancellation.checks))
      ensures status.code != Cancelled ==> Follows(status, WalkField(field, t, old(State()), depth))
      decreases field, 0
    {
      match field {
        case BadField(e) =>
          status := Status(ProjectionStatus(e), SLOT_UNAVAILABLE);
        case Field(key, v) =>
          status := TraverseField(key, v, t, depth);
      }
    }

    method TraverseField(key: Bytes, v: Value, t: Trie, depth: nat) returns (status: Status)
      requires Valid() && WellFormed(t, resultSlots.Length, satisfied.Length)
      modifies this, cancellation, resultSlots, satisfied
      ensures Valid() && old(cancellation.checks) <= cancellation.checks
      ensures status.code != Cancelled <==> cancellation.QuietSince(old(cancellation.checks))
      ensures status.code != Cancelled ==> Follows(status, WalkField(Field(key, v), t, old(State()), depth))
      decreases v, 4
    {
      TerminalsFit(t, resultSlots.Length, satisfied.Length);
      hide WellFormed, WalkValue, HardFailure, FindKey, SortedEdges, Less;
      var position := SearchEdge(t.objectEdges, key);
      if position < |t.objectEdges| {
        FlagInRange(t, position, resultSlots.Length, satisfied.Length);
      }
      if position < |t.objectEdges| && !satisfied[t.objectEdges[position].executionId] {
        status := FollowEdge(v, t.objectEdges[position], depth);
      } else {
        var code := ValidateUnselectedValue(v, cancellation, depth + 1);
        status := Status(code, SLOT_UNAVAILABLE);
      }
    }

    // Marks the edge as satisfied and traverses the field's value under it.
    method FollowEdge(v: Value, edge: ObjectEdge, depth: nat) returns (status: Status)
      requires Valid() && WellFormed(edge.child, resultSlots.Length, satisfied.Length)
      requires edge.executionId < satisfied.Length
      modifies this, cancellation, resultSlots, satisfied
      ensures Valid() && old(cancellation.checks) <= cancellation.checks
      ensures status.code != Cancelled <==> cancellation.QuietSince(old(cancellation.checks))
      ensures status.code != Cancelled ==>
                Follows(status, WalkValue(v, edge.child, Satisfy(old(State()), edge.executionId), depth + 1))
      decreases v, 3
    {
      hide WellFormed, WalkValue, HardFailure;
      satisfied[edge.executionId] := true;
      assert State() == Satisfy(old(State()), edge.executionId);
      status := TraverseValue(v, edge.child, depth + 1);
    }

    method RecordMissingFields(t: Trie)
      requires WellFormed(t, resultSlots.Length, satisfied.Length)
      modifies this`pending
      ensures pending == RecordMissing(t.objectEdges, old(State()), old(pending))
    {
      ghost var frozen := State();
      assert t.objectEdges[0..] == t.objectEdges;
      for k := 0 to |t.objectEdges|
        invariant RecordMissing(t.objectEdges, frozen, old(pending))
               == RecordMissing(t.objectEdges[k..], frozen, pending)
      {
        FlagInRange(t, k, resultSlots.Length, satisfied.Length);
        assert t.objectEdges[k..][1..] == t.objectEdges[k + 1..];
        if !satisfied[t.objectEdges[k].executionId] {
          RecordPathFailure(MissingField, t.objectEdges[k].child.first);
        }
      }
    }

    method TraverseArray(elements: seq<Value>, t: Trie, depth: nat) returns (status: Status)
      requires Valid() && WellFormed(t, resultSlots.Length, satisfied.Length)
      modifies this, cancellation, resultSlots, satisfied
      ensures Valid() && old(cancellation.checks) <= cancellation.checks
      ensures status.code != Cancelled <==> cancellation.QuietSince(old(cancellation.checks))
      ensures status.code != Cancelled ==>
                Follows(status, WalkElements(elements, t, EnterArray(t, old(State())), depth, 0, 0))
      decreases elements, 1
    {
      hide WellFormed, WalkValue, HardFailure, Less;
      if t.terminals != [] {
        RecordPathFailure(IncorrectType, t.terminals[0]);
      }
      RecordPathFailure(IncorrectType, FirstOfObjectEdges(t.objectEdges));
      ghost var entered := State();
      assert entered == EnterArray(t, old(State()));
      var requested := 0;
      assert elements[0..] == elements;
      for i := 0 to |elements|
        invariant Valid() && old(cancellation.checks) <= cancellation.checks
        invariant cancellation.QuietSince(old(cancellation.checks))
        invariant 0 <= requested <= |t.arrayEdges|
        invariant WalkElements(elements, t, entered, depth, 0, 0)
               == WalkElements(elements[i..], t, State(), depth, requested, i)
      {
        var cancelled := cancellation.Requested();
        if cancelled {
          return STATUS_CANCELLED;
        }
        assert elements[i..][1..] == elements[i + 1..];
        status := TraverseElement(elements[i], i, t, depth, requested);
        if status.code != OK {
          return;
        }
        if requested < |t.arrayEdges| && t.arrayEdges[requested].index == i {
          requested := requested + 1;
        }
      }
      if requested < |t.arrayEdges| {
        RecordPathFailure(IndexOutOfBounds, t.arrayEdges[requested].child.first);
      }
      status := STATUS_OK;
    }

    method TraverseElement(v: Value, i: nat, t: Trie, depth: nat, requested: nat) returns (status: Status)
      requires Valid() && WellFormed(t, resultSlots.Length, satisfied.Length)
      modifies this, cancellation, resultSlots, satisfied
      ensures Valid() && old(cancellation.checks) <= cancellation.checks
      ensures status.code != Cancelled <==> cancellation.QuietSince(old(cancellation.checks))
      ensures status.code != Cancelled ==>
                Follows(status,
                        if requested < |t.arrayEdges| && t.arrayEdges[requested].index == i
                        then WalkValue(v, t.arrayEdges[requested].child, old(State()), depth + 1)
                        else Skip(v, old(State()), depth + 1))
      decreases v, 3
    {
      if requested < |t.arrayEdges| && t.arrayEdges[requested].index == i {
        TerminalsFit(t, resultSlots.Length, satisfied.Length);
        ElementStep(t, requested);
        ChildIsWellFormed(t, Index(i), resultSlots.Length, satisfied.Length);
        status := TraverseValue(v, t.arrayEdges[requested].child, depth + 1);
      } else {
        var code := ValidateUnselectedValue(v, cancellation, depth + 1);
        status := Status(code, SLOT_UNAVAILABLE);
      }
    }

    method TraverseDocument(v: Value, t: Trie) returns (status: Status)
      requires Valid() && WellFormed(t, resultSlots.Length, satisfied.Length)
      modifies this, cancellation, resultSlots, satisfied
      ensures Valid() && old(cancellation.checks) <= cancellation.checks
      ensures status.code != Cancelled <==> cancellation.QuietSince(old(cancellation.checks))
      ensures status.code != Cancelled ==> Follows(status, WalkDocument(v, t, old(State())))
    {
      hide WellFormed, WalkFields, WalkElements;
      var cancelled := cancellation.Requested();
      if cancelled {
        return STATUS_CANCELLED;
      }
      match v {
        case Object(fields) =>
          status := TraverseObject(fields, t, 1);
        case Array(elements) =>
          status := TraverseArray(elements, t, 1);
        case Unreadable(e) =>
          status := Status(ProjectionStatus(e), SLOT_UNAVAILABLE);
        case _ =>
          status := TraverseScalarDocument(v, t);
      }
    }

    method TraverseScalarDocument(v: Value, t: Trie) returns (status: Status)
      requires !v.Container() && !v.Unreadable?
      modifies this`pending
      ensures status.code != Cancelled && Follows(status, WalkDocument(v, t, old(State())))
    {
      var code := CheckScalar(v);
      status := Status(code, SLOT_UNAVAILABLE);
      if code == OK {
        RecordPathFailure(IncorrectType, t.first);
      }
    }
  }

  lemma FlagInRange(t: Trie, i: nat, slotCount: nat, edgeCount: nat)
    requires WellFormed(t, slotCount, edgeCount) && i < |t.objectEdges|
    ensures t.objectEdges[i].executionId < edgeCount
    ensures WellFormed(t.objectEdges[i].child, slotCount, edgeCount)
  {
    assert At(t, []).Some?;
    assert t.objectEdges[i] in t.objectEdges;
    EdgeStep(t, i);
    ChildIsWellFormed(t, Key(t.objectEdges[i].key), slotCount, edgeCount);
  }

  method Materialize(v: Value) returns (slot: Slot)
    requires !v.Container() && ScalarFailure(v).None?
    ensures slot == SlotOf(v)
  {
    match v {
      case Null => slot := NullSlot;
      case Boolean(b) => slot := BooleanSlot(b);
      case String(s) => slot := StringSlot(s);
      case Number(_, Signed(i)) => slot := SignedSlot(i);
      case Number(_, Unsigned(u)) => slot := UnsignedSlot(u);
      case Number(_, Floating(d)) => slot := DoubleSlot(d);
    }
  }
}
