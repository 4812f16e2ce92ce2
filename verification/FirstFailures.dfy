/** Which failure a validation reports: the one at the first failing position in document order. */
module FirstFailures {
  import opened Json
  import opened DocumentOrder
  import opened NumberSyntax
  import opened Validation

  // ---- What the validators object to at one place

  /** The plain validator objects to depth, to bad keys, and to scalars that do not read. */
  ghost function PlainObjection(place: Place, depth: nat): Option<SimdError> {
    match place
    case OfBadField(e) => Some(e)
    case OfValue(x) =>
      if depth > MAX_DEPTH then Some(DepthError)
      else
        match x
        case Number(_, Rejected(e)) => Some(e)
        case Broken(e) => Some(e)
        case Unreadable(e) => Some(e)
        case _ => None
  }

  /** Projection objects to the same places, and to numbers out of range. */
  ghost function HardObjection(place: Place, depth: nat): Option<StatusCode> {
    match place
    case OfBadField(e) => Some(ProjectionStatus(e))
    case OfValue(x) =>
      if depth > MAX_DEPTH then Some(InvalidJson)
      else
        match x
        case Number(_, _) => if OutOfRange(x) then Some(NumberOutOfRange) else Malformed(x)
        case Broken(e) => Some(ProjectionStatus(e))
        case Unreadable(e) => Some(ProjectionStatus(e))
        case _ => None
  }

  /** A token that is a number, but one that no slot can hold. */
  ghost predicate OutOfRange(v: Value)
    requires v.Number?
  {
    || v.parsed.BigInteger?
    || (v.parsed.Floating? && !v.parsed.double.finite)
    || (v.parsed.Rejected? &&
        (v.parsed.error == BigIntError || v.parsed.error == NumberTooLarge
         || (v.parsed.error == NumberError && IsPaddedNumber(v.raw))))
  }

  /** A token that the parser rejects for any other reason. */
  ghost function Malformed(v: Value): Option<StatusCode>
    requires v.Number?
  {
    if !v.parsed.Rejected? then None
    else if v.parsed.error == NumberError then Some(InvalidJson)
    else Some(ProjectionStatus(v.parsed.error))
  }

  /** Which content of a number gives which code: out of range is told apart from malformed by the
    * grammar alone. */
  lemma NumberFailureCodes(v: Value)
    requires v.Number?
    ensures ScalarFailure(v) == Some(NumberOutOfRange) <==> OutOfRange(v)
    ensures v.parsed == Rejected(NumberError) ==>
              ScalarFailure(v) == Some(if IsPaddedNumber(v.raw) then NumberOutOfRange else InvalidJson)
    ensures ScalarFailure(v).None? <==>
              v.parsed.Signed? || v.parsed.Unsigned? || (v.parsed.Floating? && v.parsed.double.finite)
  {
  }

  // ---- The plain validator

  lemma {:induction false} FirstErrorIsFirst(v: Value, depth: nat)
    ensures FirstError(v, depth) == First(v, depth, PlainObjection)
    decreases v, 1, 0
  {
    if depth <= MAX_DEPTH && v.Container() {
      ItemsErrorIsFirst(v, 0, depth);
      if v.Array? {
        assert v.elements[0..] == v.elements;
      } else {
        assert v.fields[0..] == v.fields;
      }
    }
  }

  lemma {:induction false} ItemsErrorIsFirst(v: Value, i: nat, depth: nat)
    requires v.Container() && i <= Size(v)
    ensures FirstFrom(v, i, depth, PlainObjection) ==
            if v.Array? then ElementsError(v.elements[i..], depth) else FieldsError(v.fields[i..], depth)
    decreases v, 0, Size(v) - i
  {
    if i < Size(v) {
      if ItemReadable(v, i) {
        FirstErrorIsFirst(Item(v, i), depth + 1);
      }
      ItemsErrorIsFirst(v, i + 1, depth);
      if v.Array? {
        assert v.elements[i..][1..] == v.elements[i + 1..];
      } else {
        assert v.fields[i..][1..] == v.fields[i + 1..] && v.fields[i..][0] == v.fields[i];
      }
    }
  }

  /** The error a validation reports is the one at the first position that fails. */
  lemma FirstErrorByPosition(v: Value, depth: nat)
    ensures FirstError(v, depth).None? <==> forall p :: FindingAt(v, p, depth, PlainObjection).None?
    ensures forall e :: FirstError(v, depth) == Some(e) ==> exists p :: FoundFirst(v, p, depth, PlainObjection, e)
  {
    FirstErrorIsFirst(v, depth);
    FirstIsFirst(v, depth, PlainObjection);
  }

  // ---- Hard failures

  lemma ScalarObjection(v: Value)
    requires !v.Container()
    ensures forall depth: nat :: depth <= MAX_DEPTH ==> HardObjection(OfValue(v), depth) == ScalarFailure(v)
  {
    if v.Number? {
      NumberFailureCodes(v);
    }
  }

  lemma {:induction false} HardFailureIsFirst(v: Value, depth: nat)
    ensures HardFailure(v, depth) == First(v, depth, HardObjection)
    decreases v, 1, 0
  {
    if depth <= MAX_DEPTH {
      if v.Container() {
        ItemsFailureIsFirst(v, 0, depth);
        if v.Array? {
          assert v.elements[0..] == v.elements;
        } else {
          assert v.fields[0..] == v.fields;
        }
      } else {
        ScalarObjection(v);
      }
    }
  }

  lemma {:induction false} ItemsFailureIsFirst(v: Value, i: nat, depth: nat)
    requires v.Container() && i <= Size(v)
    ensures FirstFrom(v, i, depth, HardObjection) ==
            if v.Array? then ElementsFailure(v.elements[i..], depth) else FieldsFailure(v.fields[i..], depth)
    decreases v, 0, Size(v) - i
  {
    if i < Size(v) {
      if ItemReadable(v, i) {
        HardFailureIsFirst(Item(v, i), depth + 1);
      }
      ItemsFailureIsFirst(v, i + 1, depth);
      if v.Array? {
        assert v.elements[i..][1..] == v.elements[i + 1..];
      } else {
        assert v.fields[i..][1..] == v.fields[i + 1..] && v.fields[i..][0] == v.fields[i];
      }
    }
  }

  /** The hard failure of a document is the one at the first position that projection objects to,
    * whatever the plan. */
  lemma HardFailureByPosition(v: Value, depth: nat)
    ensures HardFailure(v, depth).None? <==> forall p :: FindingAt(v, p, depth, HardObjection).None?
    ensures forall code :: HardFailure(v, depth) == Some(code) ==>
              exists p :: FoundFirst(v, p, depth, HardObjection, code)
  {
    HardFailureIsFirst(v, depth);
    FirstIsFirst(v, depth, HardObjection);
  }
}
