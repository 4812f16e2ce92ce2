/** What a projection means: every path is looked up on its own, first duplicate key wins. */
module ProjectionSpec {
  import opened Json
  import opened Validation

  datatype Segment = Key(key: Bytes) | Index(index: nat)

  type Path = seq<Segment>

  datatype Slot =
    | Empty
    | SignedSlot(int64: int)
    | UnsignedSlot(uint64: nat)
    | DoubleSlot(double: Double)
    | BooleanSlot(flag: bool)
    | NullSlot
    | StringSlot(text: Bytes)

  datatype LookupResult = Found(slot: Slot) | Failed(code: StatusCode)

  datatype Failure = Failure(code: StatusCode, slot: nat)

  /** The typed slot of a scalar that reads without failure. */
  ghost function SlotOf(v: Value): (slot: Slot)
    requires !v.Container() && ScalarFailure(v).None?
    ensures slot != Empty
  {
    match v
    case Null => NullSlot
    case Boolean(b) => BooleanSlot(b)
    case String(s) => StringSlot(s)
    case Number(_, Signed(i)) => SignedSlot(i)
    case Number(_, Unsigned(u)) => UnsignedSlot(u)
    case Number(_, Floating(d)) => DoubleSlot(d)
  }

  /** The independent lookup of one path. A scalar that does not read has no lookup result of its
    * own: it is a hard failure of the whole document. */
  ghost function Lookup(v: Value, path: Path): (r: LookupResult)
    ensures r.Found? ==> r.slot != Empty
    ensures r.Failed? ==> r.code != OK && r.code != Cancelled
  {
    if path == [] then
      if v.Container() then Failed(IncorrectType)
      else if ScalarFailure(v).None? then Found(SlotOf(v))
      else Failed(ScalarFailure(v).value)
    else
      match path[0]
      case Key(key) =>
        if !v.Object? then Failed(IncorrectType)
        else
          var child := FirstField(v.fields, key);
          if child.None? then Failed(MissingField) else Lookup(child.value, path[1..])
      case Index(index) =>
        if !v.Array? then Failed(IncorrectType)
        else if index >= |v.elements| then Failed(IndexOutOfBounds)
        else Lookup(v.elements[index], path[1..])
  }

  /** The value that one step leads to. */
  ghost function Child(v: Value, segment: Segment): Option<Value> {
    match segment
    case Key(key) => if v.Object? then FirstField(v.fields, key) else None
    case Index(index) => if v.Array? && index < |v.elements| then Some(v.elements[index]) else None
  }

  /** The value a path leads to, if every step exists. */
  ghost function NodeAt(v: Value, path: Path): Option<Value> {
    if path == [] then Some(v)
    else
      match path[0]
      case Key(key) =>
        if v.Object? && FirstField(v.fields, key).Some?
        then NodeAt(FirstField(v.fields, key).value, path[1..]) else None
      case Index(index) =>
        if v.Array? && index < |v.elements| then NodeAt(v.elements[index], path[1..]) else None
  }

  // ---- What a filled slot says

  /** The value that a slot stands for. */
  function ValueOf(slot: Slot): Option<Value> {
    match slot
    case Empty => None
    case SignedSlot(i) => Some(Number([], Signed(i)))
    case UnsignedSlot(u) => Some(Number([], Unsigned(u)))
    case DoubleSlot(d) => Some(Number([], Floating(d)))
    case BooleanSlot(b) => Some(Boolean(b))
    case NullSlot => Some(Null)
    case StringSlot(s) => Some(String(s))
  }

  /** The slot stands for the value at the path, which is a scalar. */
  ghost predicate Means(v: Value, path: Path, slot: Slot) {
    && NodeAt(v, path).Some? && !NodeAt(v, path).value.Container()
    && ValueOf(slot) == Some(Plain(NodeAt(v, path).value))
  }

  /** A lookup succeeds exactly at a scalar that reads, and what it finds stands for that scalar. */
  lemma {:induction false} FoundMeans(v: Value, path: Path)
    ensures Lookup(v, path).Found? <==>
              && NodeAt(v, path).Some? && !NodeAt(v, path).value.Container()
              && ScalarFailure(NodeAt(v, path).value).None?
    ensures forall x :: Lookup(v, path) == Found(x) ==> Means(v, path, x)
    decreases |path|
  {
    if path != [] && Child(v, path[0]).Some? {
      FoundMeans(Child(v, path[0]).value, path[1..]);
    }
  }

  /** The first step that a value refuses, and the code it deserves. */
  ghost predicate Refuses(x: Value, g: Segment, code: StatusCode) {
    match g
    case Key(key) =>
      if x.Object? then
        code == MissingField && forall i :: 0 <= i < |x.fields| && x.fields[i].Field? ==> x.fields[i].key != key
      else code == IncorrectType
    case Index(index) =>
      if x.Array? then code == IndexOutOfBounds && |x.elements| <= index else code == IncorrectType
  }

  /** Where and why a lookup of a path fails: `k` steps lead to a value that refuses the next one, or the
    * whole path leads to a container or to a scalar that does not read. */
  ghost predicate FailsAfter(v: Value, path: Path, k: nat, code: StatusCode) {
    && k <= |path| && NodeAt(v, path[..k]).Some?
    && var x := NodeAt(v, path[..k]).value;
    if k < |path| then Refuses(x, path[k], code)
    else if x.Container() then code == IncorrectType
    else ScalarFailure(x) == Some(code)
  }

  /** A lookup fails with the code that its own step or its own end deserves, and only with that. */
  lemma FailedBecause(v: Value, path: Path)
    ensures forall code :: Lookup(v, path) == Failed(code) <==> exists k: nat :: FailsAfter(v, path, k, code)
  {
    forall code ensures Lookup(v, path) == Failed(code) <==> exists k: nat :: FailsAfter(v, path, k, code) {
      if Lookup(v, path) == Failed(code) {
        var k := FailureStep(v, path);
      }
      if k: nat :| FailsAfter(v, path, k, code) {
        StepFails(v, path, k, code);
      }
    }
  }

  lemma {:induction false} FailureStep(v: Value, path: Path) returns (k: nat)
    requires Lookup(v, path).Failed?
    ensures FailsAfter(v, path, k, Lookup(v, path).code)
    decreases |path|
  {
    assert path[..0] == [];
    if path == [] || Child(v, path[0]).None? {
      k := 0;
    } else {
      k := FailureStep(Child(v, path[0]).value, path[1..]);
      assert path[..k + 1][0] == path[0] && path[..k + 1][1..] == path[1..][..k];
      k := k + 1;
    }
  }

  lemma {:induction false} StepFails(v: Value, path: Path, k: nat, code: StatusCode)
    requires FailsAfter(v, path, k, code)
    ensures Lookup(v, path) == Failed(code)
    decreases k
  {
    assert path[..0] == [];
    if k > 0 {
      assert path[..k][0] == path[0] && path[..k][1..] == path[1..][..k - 1];
      StepFails(Child(v, path[0]).value, path[1..], k - 1, code);
    }
  }

  // ---- Requests that a short array hides

  /** A request for an index beyond a short array, where some other path requests a smaller index
    * that is already beyond it, contributes no failure. `paths[s]` is the path of slot `s`. */
  ghost predicate Shadowed(v: Value, paths: seq<Path>, slot: nat)
    requires slot < |paths|
  {
    exists k: nat, other: nat :: ShadowedAt(v, paths, slot, k, other)
  }

  ghost predicate ShadowedAt(v: Value, paths: seq<Path>, slot: nat, k: nat, other: nat)
    requires slot < |paths|
  {
    var path := paths[slot];
    && other < |paths| && k < |path| && k < |paths[other]|
    && path[..k] == paths[other][..k]
    && path[k].Index? && paths[other][k].Index?
    && NodeAt(v, path[..k]).Some? && NodeAt(v, path[..k]).value.Array?
    && |NodeAt(v, path[..k]).value.elements| <= paths[other][k].index < path[k].index
  }

  /** Slot `slot` fails on its own with `code`, and its failure is one the engine can see. */
  ghost predicate Visible(v: Value, paths: seq<Path>, f: Failure) {
    && f.slot < |paths|
    && Lookup(v, paths[f.slot]) == Failed(f.code)
    && !Shadowed(v, paths, f.slot)
  }

  ghost predicate AllFound(v: Value, paths: seq<Path>) {
    forall s: nat :: s < |paths| ==> Lookup(v, paths[s]).Found?
  }

  /** The specification of one projection over a value without hard failures. */
  ghost predicate Projects(v: Value, paths: seq<Path>, outcome: Outcome) {
    match outcome
    case Filled(slots) =>
      && |slots| == |paths|
      && forall s: nat :: s < |paths| ==> Lookup(v, paths[s]) == Found(slots[s])
    case PathFailure(f) =>
      && Visible(v, paths, f)
      && forall g :: Visible(v, paths, g) ==> f.slot <= g.slot
    case HardStop(code) => false
  }

  datatype Outcome =
    | Filled(slots: seq<Slot>)
    | PathFailure(failure: Failure)
    | HardStop(code: StatusCode)
}
