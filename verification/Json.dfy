/** The source document as a tree, and the failure vocabulary of the native layer. */
module Json {

  datatype Option<+T> = None | Some(value: T)

  type Byte = b: int | 0 <= b < 256

  type Bytes = seq<Byte>

  const MAX_DEPTH: nat := 1024

  const SLOT_UNAVAILABLE: nat := 0xFFFF_FFFF

  // An IEEE double is opaque: only its finiteness is ever inspected.
  datatype Double = Double(bits: nat, finite: bool)

  /** What the parser reports for a number token. */
  datatype Parsed =
    | Signed(int64: int)
    | Unsigned(uint64: nat)
    | Floating(double: Double)
    | BigInteger
    | Rejected(error: SimdError)

  /** A document value. Object fields keep source order and duplicate keys.
    * `Unreadable` fails as soon as its type is asked for; `Broken` is a string, boolean or null
    * whose type is known but whose content cannot be read. */
  datatype Value =
    | Null
    | Boolean(flag: bool)
    | String(text: Bytes)
    | Number(raw: Bytes, parsed: Parsed)
    | Array(elements: seq<Value>)
    | Object(fields: seq<Field>)
    | Unreadable(error: SimdError)
    | Broken(error: SimdError)
  {
    predicate Container() {
      Array? || Object?
    }
  }

  /** A field whose key cannot be read stops the iteration of its object. */
  datatype Field = Field(key: Bytes, value: Value) | BadField(error: SimdError)

  /** The parser's error domain, as far as the native layer tells the codes apart. */
  datatype SimdError =
    | Utf8Error
    | EmptyInput
    | UnclosedString
    | IncompleteArrayOrObject
    | MemAlloc
    | OutOfCapacity
    | Capacity
    | InsufficientPadding
    | NoSuchField
    | IndexTooLarge
    | WrongType
    | BigIntError
    | NumberTooLarge
    | NumberError
    | OutOfOrderIteration
    | DepthError
    | TapeError
    | EngineMisuse
    | OtherError(number: nat)

  /** The status codes of the private C interface. */
  datatype StatusCode =
    | OK
    | InvalidJson
    | InvalidUtf8
    | UnexpectedEof
    | OutOfMemory
    | InvalidArgument
    | InternalFailure
    | MissingField
    | IndexOutOfBounds
    | IncorrectType
    | NumberOutOfRange
    | CursorConsumed
    | Cancelled
    | BatchTooLarge
    | CursorState
    | MaxDepthExceeded
    | MaxContainerEntriesExceeded
    | MaxStringBytesExceeded
    | MaxOutputBytesExceeded

  // ---- Items of a container

  function Size(v: Value): nat {
    match v
    case Array(elements) => |elements|
    case Object(fields) => |fields|
    case _ => 0
  }

  predicate ItemReadable(v: Value, i: nat)
    requires i < Size(v)
  {
    v.Array? || v.fields[i].Field?
  }

  function Item(v: Value, i: nat): (x: Value)
    requires i < Size(v) && ItemReadable(v, i)
    ensures x < v
  {
    if v.Array? then v.elements[i] else v.fields[i].value
  }

  function ItemKey(v: Value, i: nat): Bytes
    requires i < Size(v) && ItemReadable(v, i)
  {
    if v.Array? then [] else v.fields[i].key
  }

  // ---- Values without their source text

  /** A number is kept as its parsed value: the raw text of the token is not copied. */
  function Plain(v: Value): Value
    decreases v, 1, 0
  {
    match v
    case Array(_) => Array(PlainElements(v, 0))
    case Object(_) => Object(PlainFields(v, 0))
    case Number(_, parsed) => Number([], parsed)
    case _ => v
  }

  function PlainElements(v: Value, i: nat): seq<Value>
    requires v.Array? && i <= |v.elements|
    decreases v, 0, Size(v) - i
  {
    if i == |v.elements| then [] else [Plain(v.elements[i])] + PlainElements(v, i + 1)
  }

  function PlainFields(v: Value, i: nat): seq<Field>
    requires v.Object? && i <= |v.fields|
    decreases v, 0, Size(v) - i
  {
    if i == |v.fields| then []
    else
      var f := v.fields[i];
      [if f.Field? then Field(f.key, Plain(f.value)) else f] + PlainFields(v, i + 1)
  }

  /** The first field with a given key; later duplicates are never looked at. */
  function FirstField(fields: seq<Field>, key: Bytes): (r: Option<Value>)
    ensures r.Some? ==> exists i :: FirstFieldAt(fields, key, i) && fields[i].value == r.value
    ensures r.None? ==> forall i :: 0 <= i < |fields| && fields[i].Field? ==> fields[i].key != key
  {
    if fields == [] then None
    else if fields[0].Field? && fields[0].key == key then
      assert FirstFieldAt(fields, key, 0);
      Some(fields[0].value)
    else
      var r := FirstField(fields[1..], key);
      assert r.Some? ==> exists i :: FirstFieldAt(fields, key, i) && fields[i].value == r.value by {
        if r.Some? {
          var i :| FirstFieldAt(fields[1..], key, i) && fields[1..][i].value == r.value;
          assert FirstFieldAt(fields, key, i + 1);
        }
      }
      r
  }

  predicate FirstFieldAt(fields: seq<Field>, key: Bytes, i: int) {
    && 0 <= i < |fields|
    && fields[i].Field?
    && fields[i].key == key
    && (forall j :: 0 <= j < i && fields[j].Field? ==> fields[j].key != key)
  }
}
