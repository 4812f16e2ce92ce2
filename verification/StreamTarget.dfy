/** Finding the array to stream, and the way back out of it: parent frames as a zipper. */
module StreamTarget {
  import opened Json
  import opened Validation
  import opened ProjectionSpec
  import opened DecodeLimits
  import opened Soundness

  function StreamStatus(error: SimdError): (r: StatusCode)
    ensures r != OK && r != Cancelled
  {
    match error
    case Utf8Error => InvalidUtf8
    case EmptyInput | UnclosedString | IncompleteArrayOrObject => UnexpectedEof
    case MemAlloc | OutOfCapacity => OutOfMemory
    case NoSuchField => MissingField
    case IndexTooLarge => IndexOutOfBounds
    case WrongType => IncorrectType
    case BigIntError | NumberTooLarge => NumberOutOfRange
    case OutOfOrderIteration => CursorState
    case _ => InvalidJson
  }

  /** A container entered on the way to the target, stopped at the item that leads there. */
  datatype Frame = Frame(container: Value, position: nat, depth: nat)
  {
    ghost predicate Valid() {
      container.Container() && position < Size(container) && ItemReadable(container, position)
    }

    ghost function Hole(): Value
      requires Valid()
    {
      Item(container, position)
    }
  }

  // ---- One step down

  datatype Choice = Chosen(index: nat) | Stop(code: StatusCode)

  predicate Opens(v: Value, g: Segment) {
    if g.Key? then v.Object? else v.Array?
  }

  // What opening a value as the wrong container reports.
  function OpenFailure(v: Value): (r: StatusCode)
    ensures r != OK && r != Cancelled
  {
    if v.Unreadable? then StreamStatus(v.error) else IncorrectType
  }

  function Absence(g: Segment): StatusCode {
    if g.Key? then MissingField else IndexOutOfBounds
  }

  predicate Wanted(v: Value, g: Segment, i: nat)
    requires i < Size(v) && ItemReadable(v, i) && Opens(v, g)
  {
    if g.Key? then ItemKey(v, i) == g.key else i == g.index
  }

  /** The scan from item `i` on: every item passed over is validated as if at depth one. */
  ghost function Choose(v: Value, g: Segment, i: nat): (r: Choice)
    requires Opens(v, g) && i <= Size(v)
    ensures r.Stop? ==> r.code != OK && r.code != Cancelled
    ensures r.Chosen? ==> i <= r.index < Size(v) && ItemReadable(v, r.index) && Wanted(v, g, r.index)
    decreases Size(v) - i
  {
    if i == Size(v) then Stop(Absence(g))
    else if !ItemReadable(v, i) then Stop(StreamStatus(v.fields[i].error))
    else if Wanted(v, g, i) then Chosen(i)
    else if HardFailure(Item(v, i), 1).Some? then Stop(HardFailure(Item(v, i), 1).value)
    else Choose(v, g, i + 1)
  }

  // ---- The whole way down

  datatype Located = Target(rows: seq<Value>, frames: seq<Frame>) | NoTarget(code: StatusCode)

  ghost function Locate(v: Value, path: Path, frames: seq<Frame>): (r: Located)
    ensures r.NoTarget? ==> r.code != OK && r.code != Cancelled
    decreases |path|
  {
    if path == [] then if v.Array? then Target(v.elements, frames) else NoTarget(OpenFailure(v))
    else if !Opens(v, path[0]) then NoTarget(OpenFailure(v))
    else
      match Choose(v, path[0], 0)
      case Stop(code) => NoTarget(code)
      case Chosen(i) => Locate(Item(v, i), path[1..], frames + [Frame(v, i, |frames| + 1)])
  }

  // ---- The target is the first-occurrence lookup

  /** The first item that a segment asks for. */
  ghost predicate Selects(v: Value, g: Segment, i: nat) {
    Opens(v, g) && i < Size(v) && Asked(v, g, i) && forall j :: 0 <= j < i ==> !Asked(v, g, j)
  }

  ghost predicate Asked(v: Value, g: Segment, i: nat)
    requires Opens(v, g) && i < Size(v)
  {
    ItemReadable(v, i) && Wanted(v, g, i)
  }

  ghost predicate PassesOver(v: Value, i: nat)
    requires i <= Size(v)
  {
    forall j :: 0 <= j < i ==> Validates(v, j, 1)
  }

  // Item `j` reads and has no hard failure at the given depth.
  ghost predicate Validates(v: Value, j: nat, depth: nat)
    requires j < Size(v)
  {
    ItemReadable(v, j) && HardFailure(Item(v, j), depth).None?
  }

  /** The scan finds the segment's item if everything before it validates, and otherwise stops. */
  lemma {:induction false} ChooseSelects(v: Value, g: Segment, i: nat)
    requires Opens(v, g) && i <= Size(v) && PassesOver(v, i)
    requires forall j :: 0 <= j < i ==> !Asked(v, g, j)
    ensures
      match Choose(v, g, i)
      case Chosen(k) => Selects(v, g, k) && PassesOver(v, k)
      case Stop(code) =>
        && (forall k: nat :: Selects(v, g, k) ==> !PassesOver(v, k))
        && (PassesOver(v, Size(v)) ==> code == Absence(g))
    decreases Size(v) - i
  {
    if i < Size(v) {
      if ItemReadable(v, i) && !Wanted(v, g, i) && HardFailure(Item(v, i), 1).None? {
        assert Validates(v, i, 1) && !Asked(v, g, i);
        ChooseSelects(v, g, i + 1);
      } else if !Asked(v, g, i) {
        assert !Validates(v, i, 1);
      }
    }
  }

  // Item `k` stops the scan with this code, or the container ends there without the item asked for.
  ghost predicate StopsAt(v: Value, g: Segment, k: nat, code: StatusCode) {
    && Opens(v, g) && k <= Size(v) && PassesOver(v, k)
    && (forall j :: 0 <= j < k ==> !Asked(v, g, j))
    && if k == Size(v) then code == Absence(g)
       else if !ItemReadable(v, k) then code == StreamStatus(v.fields[k].error)
       else !Asked(v, g, k) && HardFailure(Item(v, k), 1) == Some(code)
  }

  lemma {:induction false} ChooseStopsAt(v: Value, g: Segment, i: nat) returns (k: nat)
    requires Opens(v, g) && i <= Size(v) && PassesOver(v, i) && Choose(v, g, i).Stop?
    requires forall j :: 0 <= j < i ==> !Asked(v, g, j)
    ensures StopsAt(v, g, k, Choose(v, g, i).code)
    decreases Size(v) - i
  {
    k := i;
    if i < Size(v) && ItemReadable(v, i) && HardFailure(Item(v, i), 1).None? {
      assert Validates(v, i, 1) && !Asked(v, g, i);
      k := ChooseStopsAt(v, g, i + 1);
    }
  }

  lemma SelectsOnce(v: Value, g: Segment, i: nat, k: nat)
    requires Selects(v, g, i) && Selects(v, g, k)
    ensures i == k
  {
  }

  /** The item that leads down the path is the one a lookup of the path takes. */
  lemma SelectsIsLookup(v: Value, path: Path)
    requires path != []
    ensures forall i: nat :: Selects(v, path[0], i) ==> NodeAt(v, path) == NodeAt(Item(v, i), path[1..])
    ensures (forall i: nat :: !Selects(v, path[0], i)) ==> NodeAt(v, path).None?
    ensures (forall i: nat :: !Selects(v, path[0], i)) && Opens(v, path[0]) ==>
              Lookup(v, path) == Failed(Absence(path[0]))
  {
    var g := path[0];
    if g.Key? && v.Object? {
      forall i: nat ensures FirstFieldAt(v.fields, g.key, i) <==> Selects(v, g, i) {
        if Selects(v, g, i) {
          assert forall j :: 0 <= j < i && v.fields[j].Field? ==> Asked(v, g, j) || v.fields[j].key != g.key;
        }
      }
      FirstFieldOnly(v.fields, g.key);
    } else if g.Index? && v.Array? && g.index < |v.elements| {
      assert Selects(v, g, g.index);
    }
  }

  lemma FirstFieldOnly(fields: seq<Field>, key: Bytes)
    ensures forall i: nat :: FirstFieldAt(fields, key, i) ==> FirstField(fields, key) == Some(fields[i].value)
    ensures (forall i: nat :: !FirstFieldAt(fields, key, i)) ==> FirstField(fields, key).None?
  {
    var found := FirstField(fields, key);
    if found.Some? {
      var k: nat :| FirstFieldAt(fields, key, k) && fields[k].value == found.value;
    }
  }

  /** Every item before the path is fine: what the way down validates. */
  ghost predicate ClearWay(v: Value, path: Path)
    decreases |path|
  {
    path == [] ||
    exists i: nat :: Selects(v, path[0], i) && PassesOver(v, i) && ClearWay(Item(v, i), path[1..])
  }

  /** The target is found exactly when the path leads to an array past nothing that fails, and then
    * it is the array that an independent lookup of the path finds. */
  lemma {:induction false} LocateIsLookup(v: Value, path: Path, frames: seq<Frame>)
    ensures Locate(v, path, frames).Target? <==>
              ClearWay(v, path) && NodeAt(v, path).Some? && NodeAt(v, path).value.Array?
    ensures Locate(v, path, frames).Target? ==> NodeAt(v, path) == Some(Array(Locate(v, path, frames).rows))
    decreases |path|
  {
    if path != [] {
      SelectsIsLookup(v, path);
      if Opens(v, path[0]) {
        ChooseSelects(v, path[0], 0);
        var choice := Choose(v, path[0], 0);
        if choice.Chosen? {
          var i := choice.index;
          LocateIsLookup(Item(v, i), path[1..], frames + [Frame(v, i, |frames| + 1)]);
          forall k: nat | Selects(v, path[0], k) ensures k == i {
            SelectsOnce(v, path[0], i, k);
          }
        }
      }
    }
  }

  /** `k` steps of the path lead to `x`, past nothing that fails. */
  ghost predicate LeadsTo(v: Value, path: Path, k: nat, x: Value)
    requires k <= |path|
    decreases |path|
  {
    if k == 0 then x == v
    else
      exists i: nat ::
        Selects(v, path[0], i) && PassesOver(v, i) && LeadsTo(Item(v, i), path[1..], k - 1, x)
  }

  /** Why a search stops below `x`, reached after `k` steps. */
  ghost predicate MissesAt(path: Path, k: nat, x: Value, code: StatusCode)
    requires k <= |path|
  {
    if k == |path| then !x.Array? && code == OpenFailure(x)
    else if !Opens(x, path[k]) then code == OpenFailure(x)
    else exists j :: StopsAt(x, path[k], j, code)
  }

  /** A missed target is told by the first thing on its way that cannot be entered or passed. */
  lemma {:induction false} LocateMissesBecause(v: Value, path: Path, frames: seq<Frame>) returns (k: nat, x: Value)
    requires Locate(v, path, frames).NoTarget?
    ensures k <= |path| && LeadsTo(v, path, k, x) && MissesAt(path, k, x, Locate(v, path, frames).code)
    decreases |path|
  {
    k, x := 0, v;
    if path != [] && Opens(v, path[0]) {
      if Choose(v, path[0], 0).Stop? {
        var j := ChooseStopsAt(v, path[0], 0);
      } else {
        ChooseSelects(v, path[0], 0);
        var i := Choose(v, path[0], 0).index;
        k, x := LocateMissesBecause(Item(v, i), path[1..], frames + [Frame(v, i, |frames| + 1)]);
        assert k < |path[1..]| ==> path[1..][k] == path[k + 1];
        k := k + 1;
      }
    }
  }

  /** The code a missing target deserves: that of the lookup, or a type error at the path's end. */
  ghost function AbsenceOf(v: Value, path: Path): StatusCode {
    if NodeAt(v, path).None? && Lookup(v, path).Failed? then Lookup(v, path).code else IncorrectType
  }

  /** In a sound and shallow document the target is missed only for the lookup's own reason. */
  lemma {:induction false} SoundMissIsLookup(v: Value, path: Path, frames: seq<Frame>)
    requires HardFailure(v, 1).None?
    ensures
      var r := Locate(v, path, frames);
      if NodeAt(v, path).Some? && NodeAt(v, path).value.Array? then r.Target? else r == NoTarget(AbsenceOf(v, path))
    decreases |path|
  {
    if path != [] {
      SelectsIsLookup(v, path);
      if Opens(v, path[0]) {
        ItemsValidate(v);
        ChooseSelects(v, path[0], 0);
        var choice := Choose(v, path[0], 0);
        if choice.Chosen? {
          var i := choice.index;
          assert Validates(v, i, 1);
          SoundMissIsLookup(Item(v, i), path[1..], frames + [Frame(v, i, |frames| + 1)]);
          LookupDescends(v, path, i);
        } else {
          forall k: nat | k <= Size(v) ensures PassesOver(v, k) {
          }
        }
      }
    }
  }

  lemma LookupDescends(v: Value, path: Path, i: nat)
    requires path != [] && Selects(v, path[0], i)
    ensures Lookup(v, path) == Lookup(Item(v, i), path[1..])
  {
    if path[0].Key? {
      assert FirstFieldAt(v.fields, path[0].key, i) by {
        assert forall j :: 0 <= j < i && v.fields[j].Field? ==> Asked(v, path[0], j) || v.fields[j].key != path[0].key;
      }
      FirstFieldOnly(v.fields, path[0].key);
    }
  }

  lemma ItemsValidate(v: Value)
    requires v.Container() && HardFailure(v, 1).None?
    ensures PassesOver(v, Size(v))
  {
    NoFailureIsSoundAndShallow(v, 1);
    SoundFromIsBetween(v, 0);
    forall j | 0 <= j < Size(v) ensures Validates(v, j, 1) {
      assert SoundAt(v, j);
      HeightOfItem(v, 0, j);
      NoFailureIsSoundAndShallow(Item(v, j), 1);
    }
  }

  lemma {:induction false} HeightOfItem(v: Value, i: nat, j: nat)
    requires i <= j < Size(v) && ItemReadable(v, j)
    ensures Height(Item(v, j)) <= HeightFrom(v, i)
    decreases j - i
  {
    if i < j {
      HeightOfItem(v, i + 1, j);
    }
  }
}
