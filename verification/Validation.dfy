/** Complete-source validation: the plain depth-bounded validator that runs when a document is
  * opened, and the cancellable one that projection runs over everything it does not select. */
module Validation {
  import opened Json
  import opened NumberSyntax

  /** A cancellation callback, consulted once per check: check number `k` answers `probe(k)`. */
  class Cancellation {
    const probe: nat -> bool
    var checks: nat

    constructor (probe: nat -> bool)
      ensures this.probe == probe && checks == 0
    {
      this.probe := probe;
      checks := 0;
    }

    // No check from number `start` up to now asked for cancellation.
    ghost predicate QuietSince(start: nat)
      reads this
    {
      forall k: nat :: start <= k < checks ==> !probe(k)
    }

    method Requested() returns (cancelled: bool)
      modifies this
      ensures checks == old(checks) + 1
      ensures cancelled == probe(old(checks))
    {
      cancelled := probe(checks);
      checks := checks + 1;
    }
  }

  // ---- Status mapping

  function ProjectionStatus(error: SimdError): StatusCode {
    match error
    case Utf8Error => InvalidUtf8
    case EmptyInput | UnclosedString | IncompleteArrayOrObject => UnexpectedEof
    case MemAlloc | OutOfCapacity => OutOfMemory
    case Capacity | InsufficientPadding => InvalidArgument
    case NoSuchField => MissingField
    case IndexTooLarge => IndexOutOfBounds
    case BigIntError | NumberTooLarge => NumberOutOfRange
    case OutOfOrderIteration => CursorConsumed
    case EngineMisuse => InternalFailure
    case _ => InvalidJson
  }

  // ---- The plain validator

  /** The first parser error met in document order. */
  function FirstError(v: Value, depth: nat): Option<SimdError>
    decreases v, 1
  {
    if depth > MAX_DEPTH then Some(DepthError) else ContentError(v, depth)
  }

  function ContentError(v: Value, depth: nat): Option<SimdError>
    decreases v, 0
  {
    match v
    case Array(elements) => ElementsError(elements, depth)
    case Object(fields) => FieldsError(fields, depth)
    case Number(_, Rejected(e)) => Some(e)
    case Broken(e) => Some(e)
    case Unreadable(e) => Some(e)
    case _ => None
  }

  function ElementsError(elements: seq<Value>, depth: nat): Option<SimdError> {
    if elements == [] then None
    else
      var head := FirstError(elements[0], depth + 1);
      if head.Some? then head else ElementsError(elements[1..], depth)
  }

  function FieldsError(fields: seq<Field>, depth: nat): Option<SimdError> {
    if fields == [] then None
    else
      var head := match fields[0]
        case BadField(e) => Some(e)
        case Field(_, v) => FirstError(v, depth + 1);
      if head.Some? then head else FieldsError(fields[1..], depth)
  }

  method ValidateValue(v: Value, depth: nat) returns (error: Option<SimdError>)
    ensures error == FirstError(v, depth)
    decreases v, 1
  {
    if depth > MAX_DEPTH {
      return Some(DepthError);
    }
    match v {
      case Array(elements) => error := ValidateArray(elements, depth);
      case Object(fields) => error := ValidateObject(fields, depth);
      case Number(_, Rejected(e)) => error := Some(e);
      case Broken(e) => error := Some(e);
      case Unreadable(e) => error := Some(e);
      case _ => error := None;
    }
  }

  method ValidateArray(elements: seq<Value>, depth: nat) returns (error: Option<SimdError>)
    ensures error == ElementsError(elements, depth)
    decreases elements, 0
  {
    for i := 0 to |elements|
      invariant ElementsError(elements, depth) == ElementsError(elements[i..], depth)
    {
      error := ValidateValue(elements[i], depth + 1);
      assert elements[i..][1..] == elements[i + 1..];
      if error.Some? {
        return;
      }
    }
    error := None;
  }

  method ValidateObject(fields: seq<Field>, depth: nat) returns (error: Option<SimdError>)
    ensures error == FieldsError(fields, depth)
    decreases fields, 0
  {
    for i := 0 to |fields|
      invariant FieldsError(fields, depth) == FieldsError(fields[i..], depth)
    {
      match fields[i] {
        case BadField(e) => return Some(e);
        case Field(_, v) =>
          error := ValidateValue(v, depth + 1);
          assert fields[i..][1..] == fields[i + 1..];
          if error.Some? {
            return;
          }
      }
    }
    error := None;
  }

  /** The root's own depth is not compared with the bound; its children start at depth two. */
  method ValidateDocument(document: Value) returns (error: Option<SimdError>)
    ensures error == FirstError(document, 1)
  {
    match document {
      case Array(elements) => error := ValidateArray(elements, 1);
      case Object(fields) => error := ValidateObject(fields, 1);
      case _ => error := ValidateValue(document, 1);
    }
  }

  // ---- Validation of unselected content during projection

  ghost function ScalarFailure(v: Value): (r: Option<StatusCode>)
    requires !v.Container()
    ensures r != Some(OK) && r != Some(Cancelled)
  {
    match v
    case Number(raw, Rejected(NumberError)) =>
      Some(if IsPaddedNumber(raw) then NumberOutOfRange else InvalidJson)
    case Number(_, Rejected(e)) => Some(ProjectionStatus(e))
    case Number(_, BigInteger) => Some(NumberOutOfRange)
    case Number(_, Floating(d)) => if d.finite then None else Some(NumberOutOfRange)
    case Broken(e) => Some(ProjectionStatus(e))
    case Unreadable(e) => Some(ProjectionStatus(e))
    case _ => None
  }

  /** The first hard failure in document order: the status a document forces on every plan. */
  ghost function HardFailure(v: Value, depth: nat): (r: Option<StatusCode>)
    ensures r != Some(OK) && r != Some(Cancelled)
    decreases v, 1
  {
    if depth > MAX_DEPTH then Some(InvalidJson) else ContentFailure(v, depth)
  }

  ghost function ContentFailure(v: Value, depth: nat): (r: Option<StatusCode>)
    ensures r != Some(OK) && r != Some(Cancelled)
    decreases v, 0
  {
    match v
    case Array(elements) => ElementsFailure(elements, depth)
    case Object(fields) => FieldsFailure(fields, depth)
    case _ => ScalarFailure(v)
  }

  ghost function ElementsFailure(elements: seq<Value>, depth: nat): (r: Option<StatusCode>)
    ensures r != Some(OK) && r != Some(Cancelled)
  {
    if elements == [] then None
    else
      var head := HardFailure(elements[0], depth + 1);
      if head.Some? then head else ElementsFailure(elements[1..], depth)
  }

  ghost function FieldsFailure(fields: seq<Field>, depth: nat): (r: Option<StatusCode>)
    ensures r != Some(OK) && r != Some(Cancelled)
  {
    if fields == [] then None
    else
      var head := FieldFailure(fields[0], depth);
      if head.Some? then head else FieldsFailure(fields[1..], depth)
  }

  ghost function FieldFailure(field: Field, depth: nat): (r: Option<StatusCode>)
    ensures r != Some(OK) && r != Some(Cancelled)
  {
    match field
    case BadField(e) => Some(ProjectionStatus(e))
    case Field(_, v) => HardFailure(v, depth + 1)
  }

  // `OK` stands for "no failure" in the status a validation returns.
  function StatusOf(failure: Option<StatusCode>): StatusCode {
    if failure.None? then OK else failure.value
  }

  method CheckScalar(v: Value) returns (status: StatusCode)
    requires !v.Container()
    ensures status == StatusOf(ScalarFailure(v))
  {
    match v {
      case Number(raw, Rejected(NumberError)) =>
        var syntaxOk := ValidJsonNumberSyntax(raw);
        status := if syntaxOk then NumberOutOfRange else InvalidJson;
      case Number(_, Rejected(e)) => status := ProjectionStatus(e);
      case Number(_, BigInteger) => status := NumberOutOfRange;
      case Number(_, Floating(d)) => status := if d.finite then OK else NumberOutOfRange;
      case Broken(e) => status := ProjectionStatus(e);
      case Unreadable(e) => status := ProjectionStatus(e);
      case _ => status := OK;
    }
  }

  method ValidateUnselectedValue(v: Value, c: Cancellation, depth: nat) returns (status: StatusCode)
    modifies c
    ensures old(c.checks) <= c.checks
    ensures status != Cancelled <==> c.QuietSince(old(c.checks))
    ensures status != Cancelled ==> status == StatusOf(HardFailure(v, depth))
    decreases v, 1
  {
    if depth > MAX_DEPTH {
      return InvalidJson;
    }
    var cancelled := c.Requested();
    if cancelled {
      return Cancelled;
    }
    match v {
      case Array(elements) => status := ValidateUnselectedArray(elements, c, depth);
      case Object(fields) => status := ValidateUnselectedObject(fields, c, depth);
      case _ => status := CheckScalar(v);
    }
  }

  method ValidateUnselectedArray(elements: seq<Value>, c: Cancellation, depth: nat)
    returns (status: StatusCode)
    modifies c
    ensures old(c.checks) <= c.checks
    ensures status != Cancelled <==> c.QuietSince(old(c.checks))
    ensures status != Cancelled ==> status == StatusOf(ElementsFailure(elements, depth))
    decreases elements, 0
  {
    for i := 0 to |elements|
      invariant old(c.checks) <= c.checks && c.QuietSince(old(c.checks))
      invariant ElementsFailure(elements, depth) == ElementsFailure(elements[i..], depth)
    {
      var cancelled := c.Requested();
      if cancelled {
        return Cancelled;
      }
      status := ValidateUnselectedValue(elements[i], c, depth + 1);
      assert elements[i..][1..] == elements[i + 1..];
      if status != OK {
        return;
      }
    }
    status := OK;
  }

  method ValidateUnselectedObject(fields: seq<Field>, c: Cancellation, depth: nat)
    returns (status: StatusCode)
    modifies c
    ensures old(c.checks) <= c.checks
    ensures status != Cancelled <==> c.QuietSince(old(c.checks))
    ensures status != Cancelled ==> status == StatusOf(FieldsFailure(fields, depth))
    decreases fields, 0
  {
    for i := 0 to |fields|
      invariant old(c.checks) <= c.checks && c.QuietSince(old(c.checks))
      invariant FieldsFailure(fields, depth) == FieldsFailure(fields[i..], depth)
    {
      var cancelled := c.Requested();
      if cancelled {
        return Cancelled;
      }
      match fields[i] {
        case BadField(e) => return ProjectionStatus(e);
        case Field(_, v) => status := ValidateUnselectedValue(v, c, depth + 1);
      }
      assert fields[i..][1..] == fields[i + 1..];
      if status != OK {
        return;
      }
    }
    status := OK;
  }

  // ---- The two validators agree

  predicate NumbersInRange(v: Value) {
    match v
    case Array(elements) => forall e :: e in elements ==> NumbersInRange(e)
    case Object(fields) => forall f :: f in fields && f.Field? ==> NumbersInRange(f.value)
    case Number(_, BigInteger) => false
    case Number(_, Floating(d)) => d.finite
    case _ => true
  }

  /** Projection finds no hard failure exactly when the open-time validator accepts the document
    * and every number fits, at the same depth bound. */
  lemma {:induction false} HardFailureMatchesPlainValidator(v: Value, depth: nat)
    ensures HardFailure(v, depth).None? <==>
            FirstError(v, depth).None? && NumbersInRange(v)
    decreases v, 1
  {
    match v {
      case Array(elements) =>
        ElementsAgree(elements, depth);
      case Object(fields) =>
        FieldsAgree(fields, depth);
      case _ =>
    }
  }

  lemma {:induction false} ElementsAgree(elements: seq<Value>, depth: nat)
    ensures ElementsFailure(elements, depth).None? <==>
            ElementsError(elements, depth).None? && (forall e :: e in elements ==> NumbersInRange(e))
    decreases elements, 0
  {
    if elements != [] {
      HardFailureMatchesPlainValidator(elements[0], depth + 1);
      ElementsAgree(elements[1..], depth);
      assert elements == [elements[0]] + elements[1..];
    }
  }

  lemma {:induction false} FieldsAgree(fields: seq<Field>, depth: nat)
    ensures FieldsFailure(fields, depth).None? <==>
            FieldsError(fields, depth).None?
            && (forall f :: f in fields && f.Field? ==> NumbersInRange(f.value))
    decreases fields, 0
  {
    if fields != [] {
      if fields[0].Field? {
        HardFailureMatchesPlainValidator(fields[0].value, depth + 1);
      }
      FieldsAgree(fields[1..], depth);
      assert fields == [fields[0]] + fields[1..];
    }
  }
}
