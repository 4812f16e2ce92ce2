/** Caller-owned batch storage: rows, slots and copied string bytes, filled in place. */
module StreamBatch {
  import opened Json
  import opened ProjectionSpec

  const ROW_BYTES: nat := 32

  const SLOT_BYTES: nat := 24

  const UINT64_MAX: nat := 0xFFFF_FFFF_FFFF_FFFF

  /** A cancellation callback as streaming sees it: 0 goes on, 1 cancels, anything else is refused. */
  class Probe {
    const answer: nat -> nat
    var checks: nat

    constructor (answer: nat -> nat)
      ensures this.answer == answer && checks == 0
    {
      this.answer := answer;
      checks := 0;
    }

    method Ask() returns (r: nat)
      modifies this
      ensures r == answer(old(checks)) && checks == old(checks) + 1
    {
      r := answer(checks);
      checks := checks + 1;
    }
  }

  /** The first of `n` checks from number `c` on that does not answer 0. */
  function FirstStop(answer: nat -> nat, c: nat, n: nat): (r: Option<nat>)
    ensures r.Some? <==> exists k :: c <= k < c + n && answer(k) != 0
    ensures r.Some? ==> c <= r.value < c + n && answer(r.value) != 0
    decreases n
  {
    if n == 0 then None else if answer(c) != 0 then Some(c) else FirstStop(answer, c + 1, n - 1)
  }

  // ---- Projected rows and their size

  datatype Row = Row(index: nat, slots: seq<Slot>)

  function SlotText(s: Slot): Bytes {
    if s.StringSlot? then s.text else []
  }

  /** The string bytes of some slots, in order. */
  function TextOf(slots: seq<Slot>): Bytes {
    if slots == [] then []
    else TextOf(slots[..|slots| - 1]) + SlotText(slots[|slots| - 1])
  }

  function RowSize(slots: seq<Slot>): nat {
    ROW_BYTES + |slots| * SLOT_BYTES + |TextOf(slots)|
  }

  function Encoded(rows: seq<Row>): nat {
    if rows == [] then 0 else Encoded(rows[..|rows| - 1]) + RowSize(rows[|rows| - 1].slots)
  }

  function Flat(rows: seq<Row>): seq<Slot> {
    if rows == [] then [] else Flat(rows[..|rows| - 1]) + rows[|rows| - 1].slots
  }

  lemma {:induction false} TextOfConcat(a: seq<Slot>, b: seq<Slot>)
    ensures TextOf(a + b) == TextOf(a) + TextOf(b)
    decreases |b|
  {
    if b == [] {
      assert a + b == a;
    } else {
      assert (a + b)[..|a + b| - 1] == a + b[..|b| - 1];
      TextOfConcat(a, b[..|b| - 1]);
    }
  }

  /** The accounting identity: 32 bytes a row, 24 bytes a slot, and the string bytes. */
  lemma {:induction false} EncodedIsParts(rows: seq<Row>)
    ensures Encoded(rows) == |rows| * ROW_BYTES + |Flat(rows)| * SLOT_BYTES + |TextOf(Flat(rows))|
    ensures Encoded(rows) == |rows| * 32 + |Flat(rows)| * 24 + |TextOf(Flat(rows))|
    decreases |rows|
  {
    if rows != [] {
      EncodedIsParts(rows[..|rows| - 1]);
      TextOfConcat(Flat(rows[..|rows| - 1]), rows[|rows| - 1].slots);
    }
  }

  lemma {:induction false} TextOfPrefix(slots: seq<Slot>, n: nat)
    requires n <= |slots|
    ensures |TextOf(slots[..n])| <= |TextOf(slots)|
  {
    assert slots == slots[..n] + slots[n..];
    TextOfConcat(slots[..n], slots[n..]);
  }

  // ---- The stored form

  datatype StoredRow = StoredRow(index: nat, slotOffset: nat, slotCount: nat, encodedBytes: nat)

  datatype StoredSlot = Inline(slot: Slot) | Text(offset: nat, length: nat)

  const NO_ROW := StoredRow(0, 0, 0, 0)

  function Stored(s: Slot, byteOffset: nat): StoredSlot {
    if s.StringSlot? then Text(byteOffset, |s.text|) else Inline(s)
  }

  /** String ranges are handed out contiguously, in slot order. */
  function StoreAll(slots: seq<Slot>): (r: seq<StoredSlot>)
    ensures |r| == |slots|
  {
    if slots == [] then []
    else
      var before := slots[..|slots| - 1];
      StoreAll(before) + [Stored(slots[|slots| - 1], |TextOf(before)|)]
  }

  /** Row slot ranges are handed out contiguously, in row order. */
  function StoreRows(rows: seq<Row>): (r: seq<StoredRow>)
    ensures |r| == |rows|
  {
    if rows == [] then []
    else
      var before := rows[..|rows| - 1];
      var last := rows[|rows| - 1];
      StoreRows(before) + [StoredRow(last.index, |Flat(before)|, |last.slots|, RowSize(last.slots))]
  }

  predicate Loadable(s: StoredSlot, bytes: Bytes) {
    s.Text? ==> s.offset + s.length <= |bytes|
  }

  function Load(s: StoredSlot, bytes: Bytes): Slot
    requires Loadable(s, bytes)
  {
    match s
    case Inline(slot) => slot
    case Text(offset, length) => StringSlot(bytes[offset..offset + length])
  }

  lemma {:induction false} StoredSlotLoads(slots: seq<Slot>, k: nat)
    requires k < |slots|
    ensures
      var s := StoreAll(slots)[k];
      Loadable(s, TextOf(slots)) && Load(s, TextOf(slots)) == slots[k]
    decreases |slots|
  {
    var last := |slots| - 1;
    var less := slots[..last];
    if k < last {
      StoredSlotLoads(less, k);
      LoadGrows(StoreAll(less)[k], TextOf(less), SlotText(slots[last]));
    } else {
      assert TextOf(slots)[|TextOf(less)|..] == SlotText(slots[last]);
    }
  }

  lemma LoadGrows(s: StoredSlot, bytes: Bytes, more: Bytes)
    requires Loadable(s, bytes)
    ensures Loadable(s, bytes + more) && Load(s, bytes + more) == Load(s, bytes)
  {
  }

  lemma {:induction false} StoredRowSlot(rows: seq<Row>, r: nat, k: nat)
    requires r < |rows| && k < |rows[r].slots|
    ensures
      var row := StoreRows(rows)[r];
      && row.index == rows[r].index && row.slotCount == |rows[r].slots|
      && row.slotOffset + k < |Flat(rows)|
      && Flat(rows)[row.slotOffset + k] == rows[r].slots[k]
    decreases |rows|
  {
    if r < |rows| - 1 {
      StoredRowSlot(rows[..|rows| - 1], r, k);
    }
  }

  /** A stored row names its own element and says how many slots and bytes it takes. */
  lemma {:induction false} StoredRowHeader(rows: seq<Row>, r: nat)
    requires r < |rows|
    ensures
      var row, slots := StoreRows(rows)[r], rows[r].slots;
      && row.index == rows[r].index && row.slotCount == |slots|
      && row.encodedBytes == 32 + 24 * |slots| + |TextOf(slots)|
    decreases |rows|
  {
    if r < |rows| - 1 {
      StoredRowHeader(rows[..|rows| - 1], r);
    }
  }

  /** What a consumer finds in the storage is what was projected. */
  lemma StoredRowsReadBack(rows: seq<Row>, r: nat, k: nat)
    requires r < |rows| && k < |rows[r].slots|
    ensures
      var row := StoreRows(rows)[r];
      var slots := StoreAll(Flat(rows));
      var bytes := TextOf(Flat(rows));
      && row.index == rows[r].index && row.slotCount == |rows[r].slots|
      && row.slotOffset + k < |slots|
      && Loadable(slots[row.slotOffset + k], bytes)
      && Load(slots[row.slotOffset + k], bytes) == rows[r].slots[k]
  {
    StoredRowSlot(rows, r, k);
    StoredSlotLoads(Flat(rows), StoreRows(rows)[r].slotOffset + k);
  }

  /** Consecutive rows take consecutive slot ranges, which together are all the produced slots. */
  lemma {:induction false} SlotRangesPartition(rows: seq<Row>, r: nat)
    requires r < |rows|
    ensures
      var stored := StoreRows(rows);
      && stored[0].slotOffset == 0
      && stored[r].slotOffset + stored[r].slotCount ==
           if r + 1 < |rows| then stored[r + 1].slotOffset else |Flat(rows)|
    decreases |rows|
  {
    var last := |rows| - 1;
    var before := rows[..last];
    if r < last {
      SlotRangesPartition(before, r);
    } else if r > 0 {
      SlotRangesPartition(before, r - 1);
    }
  }

  // ---- Room for one more row

  datatype Limits = Limits(rowCapacity: nat, slotCapacity: nat, copyCapacity: nat, encodedLimit: nat)

  predicate Fits(rows: seq<Row>, slots: seq<Slot>, limits: Limits) {
    && Encoded(rows) + RowSize(slots) <= limits.encodedLimit
    && |TextOf(Flat(rows))| + |TextOf(slots)| <= limits.copyCapacity
  }

  datatype Append =
    | Appended
    | DoesNotFit
    | RowTooLarge
    | SizeOverflow
    | AppendStopped(answer: nat)

  /** What appending a row does, and the number of the next check. */
  function AppendRow(rows: seq<Row>, slots: seq<Slot>, limits: Limits, answer: nat -> nat, c: nat): (Append, nat) {
    if answer(c) != 0 then (AppendStopped(answer(c)), c + 1)
    else if RowSize(slots) > UINT64_MAX then (SizeOverflow, c + 1)
    else if !Fits(rows, slots, limits) then (if rows == [] then RowTooLarge else DoesNotFit, c + 1)
    else
      match FirstStop(answer, c + 1, |slots|)
      case Some(k) => (AppendStopped(answer(k)), k + 1)
      case None => (Appended, c + 1 + |slots|)
  }

  // ---- The storage object

  class Batch {
    const rows: array<StoredRow>
    const slots: array<StoredSlot>
    const copiedBytes: array<Byte>
    var producedRows: nat
    var producedSlots: nat
    var encodedBytes: nat
    var done: bool

    constructor (rows: array<StoredRow>, slots: array<StoredSlot>, copiedBytes: array<Byte>)
      ensures this.rows == rows && this.slots == slots && this.copiedBytes == copiedBytes
    {
      this.rows, this.slots, this.copiedBytes := rows, slots, copiedBytes;
      producedRows, producedSlots, encodedBytes, done := 0, 0, 0, false;
    }

    ghost predicate Holds(taken: seq<Row>)
      reads this, rows, slots, copiedBytes
    {
      && producedRows == |taken| <= rows.Length
      && producedSlots == |Flat(taken)|
      && encodedBytes == Encoded(taken)
      && rows[..producedRows] == StoreRows(taken)
      && Copied(Flat(taken))
    }

    // The slots are stored from the start of the storage, their bytes from the start of the buffer.
    ghost predicate Copied(sofar: seq<Slot>)
      reads this, slots, copiedBytes
    {
      && |sofar| <= slots.Length && |TextOf(sofar)| <= copiedBytes.Length
      && slots[..|sofar|] == StoreAll(sofar)
      && copiedBytes[..|TextOf(sofar)|] == TextOf(sofar)
    }

    ghost predicate Cleared()
      reads this, rows, slots, copiedBytes
    {
      && Holds([]) && !done
      && rows[..] == seq(rows.Length, _ => NO_ROW)
      && slots[..] == seq(slots.Length, _ => Inline(Empty))
    }

    function LimitsWith(encodedLimit: nat): Limits {
      Limits(rows.Length, slots.Length, copiedBytes.Length, encodedLimit)
    }

    /** The storage a caller may pass: room for a row at least, and no more than the cursor's limits. */
    predicate Acceptable(rowLimit: nat, encodedLimit: nat) {
      && 0 < rows.Length <= rowLimit
      && 0 < slots.Length
      && copiedBytes.Length <= encodedLimit
    }

    method Clear()
      modifies this, rows, slots
      ensures Cleared()
    {
      for i := 0 to rows.Length
        invariant forall j :: 0 <= j < i ==> rows[j] == NO_ROW
      {
        rows[i] := NO_ROW;
      }
      for i := 0 to slots.Length
        invariant forall j :: 0 <= j < rows.Length ==> rows[j] == NO_ROW
        invariant forall j :: 0 <= j < i ==> slots[j] == Inline(Empty)
      {
        slots[i] := Inline(Empty);
      }
      producedRows, producedSlots, encodedBytes, done := 0, 0, 0, false;
    }

    // Copies one slot behind those already stored; a string's bytes go behind those already copied.
    method PutSlot(s: Slot, at: nat, byteOffset: nat, ghost before: seq<Slot>)
      requires Copied(before) && at == |before| < slots.Length
      requires byteOffset == |TextOf(before)| && byteOffset + |SlotText(s)| <= copiedBytes.Length
      modifies slots, copiedBytes
      ensures Copied(before + [s]) && |TextOf(before + [s])| == byteOffset + |SlotText(s)|
    {
      assert (before + [s])[..at] == before;
      if s.StringSlot? {
        forall j | 0 <= j < |s.text| {
          copiedBytes[byteOffset + j] := s.text[j];
        }
      }
      slots[at] := Stored(s, byteOffset);
      assert slots[..at + 1] == slots[..at] + [slots[at]];
      assert copiedBytes[..byteOffset + |SlotText(s)|] == copiedBytes[..byteOffset] + SlotText(s);
    }

    /** Appends a row if it fits; a row is visible only once it is complete. */
    method AppendPending(row: Row, encodedLimit: nat, probe: Probe, ghost taken: seq<Row>) returns (how: Append)
      requires Holds(taken) && |taken| < rows.Length && producedSlots + |row.slots| <= slots.Length
      requires encodedLimit <= UINT64_MAX
      modifies this, rows, slots, copiedBytes, probe
      ensures (how, probe.checks) ==
                AppendRow(taken, row.slots, LimitsWith(encodedLimit), probe.answer, old(probe.checks))
      ensures how == Appended ==> Holds(taken + [row])
      ensures how == DoesNotFit ==> Holds(taken)
      ensures done == old(done)
    {
      EncodedIsParts(taken);
      hide StoreRows, StoreAll, Flat, Encoded, TextOf;
      var answer := probe.Ask();
      if answer != 0 {
        return AppendStopped(answer);
      }
      var stringBytes := StringBytes(row.slots);
      var rowBytes := ROW_BYTES + |row.slots| * SLOT_BYTES + stringBytes;
      if rowBytes > UINT64_MAX {
        return SizeOverflow;
      }
      var copiedUsed := encodedBytes - producedRows * ROW_BYTES - producedSlots * SLOT_BYTES;
      if encodedBytes + rowBytes > encodedLimit || stringBytes > copiedBytes.Length - copiedUsed {
        return if producedRows == 0 then RowTooLarge else DoesNotFit;
      }
      how := CopySlots(row.slots, producedSlots, copiedUsed, probe, Flat(taken));
      if how == Appended {
        CommitRow(row, rowBytes, taken);
      }
    }

    method CommitRow(row: Row, rowBytes: nat, ghost taken: seq<Row>)
      requires producedRows == |taken| < rows.Length && producedSlots == |Flat(taken)|
      requires encodedBytes == Encoded(taken) && rows[..producedRows] == StoreRows(taken)
      requires Copied(Flat(taken) + row.slots) && rowBytes == RowSize(row.slots)
      modifies this, rows
      ensures Holds(taken + [row]) && done == old(done)
    {
      assert (taken + [row])[..|taken|] == taken;
      rows[producedRows] := StoredRow(row.index, producedSlots, |row.slots|, rowBytes);
      producedRows := producedRows + 1;
      producedSlots := producedSlots + |row.slots|;
      encodedBytes := encodedBytes + rowBytes;
      assert rows[..producedRows] == StoreRows(taken) + [rows[producedRows - 1]];
    }

    // Copies the slot at `index` of a row whose earlier slots are already stored.
    method CopySlot(pending: seq<Slot>, index: nat, at: nat, byteOffset: nat, ghost before: seq<Slot>)
      returns (next: nat)
      requires index < |pending| && |before| + |pending| <= slots.Length && at == |before| + index
      requires |TextOf(before)| + |TextOf(pending)| <= copiedBytes.Length
      requires Copied(before + pending[..index]) && byteOffset == |TextOf(before + pending[..index])|
      modifies slots, copiedBytes
      ensures Copied(before + pending[..index + 1]) && next == |TextOf(before + pending[..index + 1])|
    {
      hide StoreAll, TextOf;
      RoomForSlot(before, pending, index);
      assert before + pending[..index + 1] == before + pending[..index] + [pending[index]];
      PutSlot(pending[index], at, byteOffset, before + pending[..index]);
      next := byteOffset + |SlotText(pending[index])|;
    }

    method CopySlots(pending: seq<Slot>, slotOffset: nat, copiedUsed: nat, probe: Probe, ghost before: seq<Slot>)
      returns (how: Append)
      requires Copied(before) && slotOffset == |before| && slotOffset + |pending| <= slots.Length
      requires copiedUsed == |TextOf(before)| && copiedUsed + |TextOf(pending)| <= copiedBytes.Length
      modifies slots, copiedBytes, probe
      ensures
        match FirstStop(probe.answer, old(probe.checks), |pending|)
        case Some(k) => how == AppendStopped(probe.answer(k)) && probe.checks == k + 1
        case None => how == Appended && probe.checks == old(probe.checks) + |pending|
      ensures how == Appended ==> Copied(before + pending)
    {
      hide StoreAll, TextOf, Batch.Copied;
      var byteOffset := copiedUsed;
      assert before + pending[..0] == before;
      for index := 0 to |pending|
        invariant probe.checks == old(probe.checks) + index
        invariant FirstStop(probe.answer, old(probe.checks), |pending|) ==
                  FirstStop(probe.answer, probe.checks, |pending| - index)
        invariant Copied(before + pending[..index]) && byteOffset == |TextOf(before + pending[..index])|
      {
        var answer := probe.Ask();
        if answer != 0 {
          return AppendStopped(answer);
        }
        byteOffset := CopySlot(pending, index, slotOffset + index, byteOffset, before);
      }
      assert pending[..|pending|] == pending;
      how := Appended;
    }
  }

  method StringBytes(slots: seq<Slot>) returns (bytes: nat)
    ensures bytes == |TextOf(slots)|
  {
    bytes := 0;
    for i := 0 to |slots|
      invariant bytes == |TextOf(slots[..i])|
    {
      assert slots[..i + 1][..i] == slots[..i];
      bytes := bytes + |SlotText(slots[i])|;
    }
    assert slots[..|slots|] == slots;
  }

  lemma RoomForPrefix(before: seq<Slot>, pending: seq<Slot>, n: nat)
    requires n <= |pending|
    ensures |TextOf(before + pending[..n])| <= |TextOf(before)| + |TextOf(pending)|
  {
    TextOfConcat(before, pending[..n]);
    TextOfPrefix(pending, n);
  }

  lemma RoomForSlot(before: seq<Slot>, pending: seq<Slot>, n: nat)
    requires n < |pending|
    ensures |TextOf(before + pending[..n])| + |SlotText(pending[n])| <= |TextOf(before)| + |TextOf(pending)|
  {
    RoomForPrefix(before, pending, n + 1);
    assert (before + pending[..n + 1])[..|before| + n] == before + pending[..n];
  }
}
