/** The resumable batch cursor over a nested array of a document. */
module StreamCursor {
  import opened Json
  import opened Validation
  import opened ProjectionSpec
  import opened ProjectionCompiler
  import opened ProjectionEngine
  import opened ProjectionExecute
  import opened StreamTarget
  import opened StreamZipper
  import opened StreamBatch
  import opened StreamSpec

  const STREAM_MAX_BATCH_SIZE: nat := 10_000

  const STREAM_MAX_BATCH_BYTES: nat := 67_108_864

  // ---- Status codes

  function ProbeCode(answer: nat): StatusCode {
    if answer == 1 then Cancelled else InvalidArgument
  }

  function AppendCode(how: Append): StatusCode {
    match how
    case Appended | DoesNotFit => OK
    case RowTooLarge => BatchTooLarge
    case SizeOverflow => OutOfMemory
    case AppendStopped(answer) => ProbeCode(answer)
  }

  function CompletionCode(completion: Completion): StatusCode {
    match completion
    case Completed => OK
    case Halted(answer) => ProbeCode(answer)
    case Refused(code) => code
  }

  /** `code` is what projecting a row that does not project reports. */
  ghost predicate RowCode(v: Value, paths: seq<Path>, code: StatusCode) {
    exists slot: nat :: code != OK && Executed(v, paths, Status(code, slot), EmptySlots(|paths|))
  }

  ghost predicate BrokenOffCode(src: Source, rows: seq<Value>, f: Filling, code: StatusCode) {
    match f.end
    case Interrupted(answer) => code == if answer == 1 then Cancelled else InvalidArgument
    case RowFailed => f.position < |rows| && RowCode(rows[f.position], src.paths, code)
    case RowUnfit(RowTooLarge) => code == BatchTooLarge
    case RowUnfit(SizeOverflow) => code == OutOfMemory
    case RowUnfit(AppendStopped(answer)) => code == if answer == 1 then Cancelled else InvalidArgument
    case Unfinished(Halted(answer)) => code == if answer == 1 then Cancelled else InvalidArgument
    case Unfinished(Refused(refused)) => code == refused
    case _ => false
  }

  ghost predicate DenialCode(src: Source, s: State, why: Denial, code: StatusCode) {
    match why
    case BadProbe => code == InvalidArgument
    case CancelledFirst => code == Cancelled
    case WrongPhase(phase) => code == if phase == Dead then Cancelled else CursorState
    case TargetMissing(missing) => code == missing
    case TooFewSlots => code == InvalidArgument
    case BrokenOff(f) => s.goal.Some? && BrokenOffCode(src, s.goal.value.rows, f, code)
  }

  // ---- Validation outside the target

  method ValidateSkipped(v: Value, depth: nat) returns (status: StatusCode)
    ensures status == StatusOf(HardFailure(v, depth))
  {
    var never := new Cancellation(_ => false);
    status := ValidateUnselectedValue(v, never, depth);
  }

  /** Projects one row without cancellation. */
  method ProjectRow(row: Value, plan: Plan, ghost paths: seq<Path>) returns (status: StatusCode, slots: seq<Slot>)
    requires Published(plan, paths)
    ensures status == OK ==> RowSlots(row, paths) == Some(slots)
    ensures status != OK ==> RowSlots(row, paths).None? && RowCode(row, paths, status)
  {
    assert plan.outputSlots == |paths|;
    hide Published, RowSlots, Executed;
    var resultSlots := new Slot[plan.outputSlots](_ => Empty);
    var never := new Cancellation(_ => false);
    var projected := ExecuteValue(row, plan, resultSlots, never, paths);
    status, slots := projected.code, resultSlots[..];
    ExecutedIsRowSlots(row, paths, projected, slots);
  }

  class StreamCursor {
    const document: Value
    const closes: bool
    const again: nat -> Answer
    const path: Path
    const plan: Plan
    ghost const paths: seq<Path>
    const rowLimit: nat
    const encodedByteLimit: nat
    var state: Phase
    var started: bool
    var targetLocated: bool
    var targetRows: seq<Value>
    var targetPosition: nat
    var parentFrames: seq<Frame>
    var pendingSlots: seq<Slot>
    var pendingRowIndex: nat
    var pendingRow: bool
    var currentRowIndex: nat
    var batchSequence: nat
    var targetLookups: nat
    var projectionAttempts: nat
    var committedRows: nat
    ghost var goal: Option<Goal>
    ghost var validated: seq<Site>
    ghost var retried: bool

    constructor (document: Value, closes: bool, again: nat -> Answer, path: Path, plan: Plan, rowLimit: nat,
                 encodedByteLimit: nat, ghost paths: seq<Path>)
      requires Published(plan, paths)
      requires 0 < rowLimit <= STREAM_MAX_BATCH_SIZE && 0 < encodedByteLimit <= STREAM_MAX_BATCH_BYTES
      ensures Valid() && View() == START
      ensures Src() == Source(document, closes, again, path, paths)
    {
      this.document, this.closes, this.again, this.path := document, closes, again, path;
      this.plan, this.paths, this.rowLimit, this.encodedByteLimit := plan, paths, rowLimit, encodedByteLimit;
      state, started, targetLocated, targetRows, targetPosition := Ready, false, false, [], 0;
      parentFrames, pendingSlots, pendingRowIndex, pendingRow, currentRowIndex := [], [], 0, false, 0;
      batchSequence, targetLookups, projectionAttempts, committedRows := 0, 0, 0, 0;
      goal, validated, retried := None, [], false;
    }

    ghost function Src(): Source {
      Source(document, closes, again, path, paths)
    }

    ghost function View(): State
      reads this
    {
      State(state, started, targetLookups, retried, goal, targetPosition)
    }

    function Pending(): nat
      reads this
    {
      if pendingRow then 1 else 0
    }

    // Holds in every phase.
    ghost predicate Fixed()
      reads this, plan
    {
      && Published(plan, paths)
      && 0 < rowLimit <= STREAM_MAX_BATCH_SIZE && 0 < encodedByteLimit <= STREAM_MAX_BATCH_BYTES
      && Coherent(View()) && OnTarget(Src(), View())
      && (targetLocated <==> goal.Some?)
      && (goal.Some? ==> targetRows == goal.value.rows)
      && currentRowIndex == committedRows == targetPosition
    }

    /** Holds between calls of a cursor that can go on: a pending row is the projection of the next
      * row, every projection was committed or is pending, and nothing after the target was touched. */
    ghost predicate Intact()
      reads this, plan
    {
      && Fixed()
      && projectionAttempts == committedRows + Pending()
      && (pendingRow ==>
            && goal.Some? && targetPosition < |targetRows| && pendingRowIndex == targetPosition
            && RowSlots(targetRows[targetPosition], paths) == Some(pendingSlots))
      && (goal.Some? ==>
            parentFrames == goal.value.frames && (!retried ==> validated == Before(goal.value.frames)))
      && (goal.None? && !started ==> parentFrames == [] && validated == [])
    }

    ghost predicate Valid()
      reads this, plan
    {
      && Fixed() && state != Running
      && (state == Ready ==> Intact())
      && (state == Finished ==>
            && goal.Some? && targetPosition == |targetRows| && !pendingRow
            && projectionAttempts == committedRows
            && parentFrames == []
            && (!retried ==> validated == Before(goal.value.frames) + After(goal.value.frames)))
    }

    /** A finished cursor that found its target at once has validated every value outside it exactly
      * once. */
    lemma FinishedVisitedOnce(s: Site)
      requires Valid() && state == Finished && !retried
      ensures goal.Some? && multiset(validated)[s] == if Outside(goal.value.frames, s) then 1 else 0
    {
      EverySiteOnce(goal.value.frames, s);
    }

    // ---- The way down

    method ObjectSegment(v: Value, g: Segment) returns (status: StatusCode, out: Value)
      requires v.Object? && g.Key?
      modifies this`parentFrames, this`validated
      ensures Steps(v, Choose(v, g, 0), status, out, old(parentFrames), old(validated))
    {
      out := Null;
      var position := 0;
      ghost var level := |parentFrames|;
      assert validated + SitesOf(level, 0, 0) == validated;
      while position < |v.fields|
        invariant 0 <= position <= |v.fields| && parentFrames == old(parentFrames)
        invariant Choose(v, g, 0) == Choose(v, g, position)
        invariant validated == old(validated) + SitesOf(level, 0, position)
      {
        var field := v.fields[position];
        if field.BadField? {
          return StreamStatus(field.error), out;
        }
        if field.key == g.key {
          parentFrames := parentFrames + [Frame(v, position, |parentFrames| + 1)];
          return OK, field.value;
        }
        status := ValidateSkipped(field.value, 1);
        if status != OK {
          return;
        }
        validated := validated + [Site(level, position)];
        position := position + 1;
      }
      status := MissingField;
    }

    method ArraySegment(v: Value, g: Segment) returns (status: StatusCode, out: Value)
      requires v.Array? && g.Index?
      modifies this`parentFrames, this`validated
      ensures Steps(v, Choose(v, g, 0), status, out, old(parentFrames), old(validated))
    {
      out := Null;
      var index := 0;
      ghost var level := |parentFrames|;
      assert validated + SitesOf(level, 0, 0) == validated;
      while index < |v.elements|
        invariant 0 <= index <= |v.elements| && parentFrames == old(parentFrames)
        invariant Choose(v, g, 0) == Choose(v, g, index)
        invariant validated == old(validated) + SitesOf(level, 0, index)
      {
        var child := v.elements[index];
        if index == g.index {
          parentFrames := parentFrames + [Frame(v, index, |parentFrames| + 1)];
          return OK, child;
        }
        status := ValidateSkipped(child, 1);
        if status != OK {
          return;
        }
        validated := validated + [Site(level, index)];
        index := index + 1;
      }
      status := IndexOutOfBounds;
    }

    // One step down took the choice: the item's frame is pushed and what it passed over is on record.
    ghost predicate Steps(v: Value, choice: Choice, status: StatusCode, out: Value, frames: seq<Frame>,
                          log: seq<Site>)
      requires choice.Chosen? ==> choice.index < Size(v) && ItemReadable(v, choice.index)
      reads this
    {
      match choice
      case Stop(code) => status == code
      case Chosen(i) =>
        && status == OK && out == Item(v, i)
        && parentFrames == frames + [Frame(v, i, |frames| + 1)]
        && validated == log + SitesOf(|frames|, 0, i)
    }

    method Descend(v: Value, g: Segment) returns (status: StatusCode, out: Value)
      modifies this`parentFrames, this`validated
      ensures if Opens(v, g) then Steps(v, Choose(v, g, 0), status, out, old(parentFrames), old(validated))
              else status == OpenFailure(v) && parentFrames == old(parentFrames) && validated == old(validated)
    {
      if !Opens(v, g) {
        return OpenFailure(v), Null;
      }
      if g.Key? {
        status, out := ObjectSegment(v, g);
      } else {
        status, out := ArraySegment(v, g);
      }
    }

    method LocateTarget() returns (status: StatusCode)
      requires Intact() && goal.None? && !pendingRow
      modifies this`targetLookups, this`started, this`retried, this`parentFrames, this`validated,
               this`targetLocated, this`targetRows, this`goal
      ensures Intact()
      ensures
        match Search(Src(), old(View()))
        case NoTarget(code) => status == code && View() == Searched(Src(), old(View()))
        case Target(rows, frames) =>
          status == OK && View() == Searched(Src(), old(View())).(goal := Some(Goal(rows, frames)))
    {
      hide Published, Before;
      targetLookups := targetLookups + 1;
      retried := retried || started;
      if started {
        status := SearchAgain();
        return;
      }
      started := RootOpens(document, path);
      var value;
      status, value := DescendPath();
      if status != OK {
        return;
      }
      if !value.Array? {
        return OpenFailure(value);
      }
      Aim(value.elements);
      status := OK;
    }

    method Aim(rows: seq<Value>)
      modifies this`targetLocated, this`targetRows, this`goal
      ensures targetLocated && targetRows == rows && goal == Some(Goal(rows, parentFrames))
    {
      targetRows := rows;
      targetLocated := true;
      goal := Some(Goal(targetRows, parentFrames));
    }

    // The root was opened before: what is found now is up to the parser.
    method SearchAgain() returns (status: StatusCode)
      requires targetLookups > 0
      modifies this`parentFrames, this`targetLocated, this`targetRows, this`goal
      ensures
        match again(targetLookups - 1)
        case NoTarget(code) =>
          && status == code && goal == old(goal) && targetLocated == old(targetLocated)
          && targetRows == old(targetRows)
        case Target(rows, frames) =>
          && status == OK && parentFrames == frames
          && targetLocated && targetRows == rows && goal == Some(Goal(rows, frames))
    {
      match again(targetLookups - 1) {
        case NoTarget(code) =>
          status := code;
        case Target(rows, frames) =>
          parentFrames := frames;
          Aim(rows);
          status := OK;
      }
    }

    /** Follows the path segment by segment; what is left to follow always locates the same target. */
    method DescendPath() returns (status: StatusCode, value: Value)
      requires parentFrames == [] && validated == []
      modifies this`parentFrames, this`validated
      ensures status == OK ==>
                && Locate(document, path, []) == Locate(value, [], parentFrames)
                && AllValid(parentFrames) && validated == Before(parentFrames)
      ensures status != OK ==> Locate(document, path, []) == NoTarget(status)
      ensures !RootOpens(document, path) ==> parentFrames == [] && validated == []
      ensures status == OK && path != [] ==> RootOpens(document, path)
    {
      value := document;
      for index := 0 to |path|
        invariant AllValid(parentFrames) && validated == Before(parentFrames)
        invariant if index == 0 then value == document && parentFrames == [] else RootOpens(document, path)
        invariant Locate(document, path, []) == Locate(value, path[index..], parentFrames)
      {
        ghost var frames := parentFrames;
        assert path[index..][1..] == path[index + 1..];
        status, value := Descend(value, path[index]);
        if status != OK {
          return;
        }
        assert parentFrames[..|frames|] == frames;
      }
      status := OK;
    }

    // ---- Rows

    method ProjectCurrentRow() returns (status: StatusCode)
      requires Intact() && goal.Some? && !pendingRow && targetPosition < |targetRows|
      modifies this`projectionAttempts, this`pendingSlots, this`pendingRowIndex, this`pendingRow
      ensures Fixed()
      ensures status == OK <==> RowSlots(targetRows[targetPosition], paths).Some?
      ensures status == OK ==> Intact() && pendingRow
      ensures status != OK ==> RowCode(targetRows[targetPosition], paths, status)
    {
      hide Published, Locate, Before, RowSlots, Executed;
      projectionAttempts := projectionAttempts + 1;
      status, pendingSlots := ProjectRow(targetRows[targetPosition], plan, paths);
      if status != OK {
        return;
      }
      pendingRowIndex := currentRowIndex;
      pendingRow := true;
    }

    // ---- The way back

    method FinishSiblings(probe: Probe) returns (completion: Completion)
      requires parentFrames != [] && AllValid(parentFrames)
      modifies this`parentFrames, this`validated, probe
      ensures
        var last := |old(parentFrames)| - 1;
        var top := old(parentFrames)[last];
        && (completion, probe.checks) ==
             Siblings(top.container, top.position + 1, top.depth, probe.answer, old(probe.checks))
        && |parentFrames| == last + 1 && parentFrames[..last] == old(parentFrames)[..last]
        && (completion == Completed ==>
              validated == old(validated) + SitesOf(last, top.position + 1, Size(top.container)))
    {
      hide HardFailure, Published, Locate, Before, After;
      var last := |parentFrames| - 1;
      var container, depth := parentFrames[last].container, parentFrames[last].depth;
      ghost var start := parentFrames[last].position + 1;
      parentFrames := parentFrames[last := parentFrames[last].(position := parentFrames[last].position + 1)];
      assert validated + SitesOf(last, start, start) == validated;
      while parentFrames[last].position < Size(container)
        invariant |parentFrames| == last + 1 && parentFrames[..last] == old(parentFrames)[..last]
        invariant start <= parentFrames[last].position <= Size(container)
        invariant Siblings(container, start, depth, probe.answer, old(probe.checks)) ==
                  Siblings(container, parentFrames[last].position, depth, probe.answer, probe.checks)
        invariant validated == old(validated) + SitesOf(last, start, parentFrames[last].position)
        decreases Size(container) - parentFrames[last].position
      {
        var position := parentFrames[last].position;
        var answer := probe.Ask();
        if answer != 0 {
          return Halted(answer);
        }
        if !ItemReadable(container, position) {
          return Refused(StreamStatus(container.fields[position].error));
        }
        var status := ValidateSkipped(Item(container, position), depth + 1);
        if status != OK {
          return Refused(status);
        }
        validated := validated + [Site(last, position)];
        parentFrames := parentFrames[last := parentFrames[last].(position := position + 1)];
      }
      completion := Completed;
    }

    method ValidateSourceCompletion(probe: Probe) returns (completion: Completion)
      requires AllValid(parentFrames)
      modifies this`parentFrames, this`validated, probe
      ensures (completion, probe.checks) ==
                Complete(old(parentFrames), closes, probe.answer, old(probe.checks))
      ensures completion == Completed ==>
                parentFrames == [] && validated == old(validated) + After(old(parentFrames))
    {
      hide Siblings, SitesOf;
      var answer := probe.Ask();
      if answer != 0 {
        return Halted(answer);
      }
      ghost var c := probe.checks;
      while parentFrames != []
        invariant AllValid(parentFrames)
        invariant Unwind(old(parentFrames), closes, probe.answer, c) ==
                  Unwind(parentFrames, closes, probe.answer, probe.checks)
        invariant validated + After(parentFrames) == old(validated) + After(old(parentFrames))
        decreases |parentFrames|
      {
        ghost var frames := parentFrames;
        completion := FinishSiblings(probe);
        if completion != Completed {
          return;
        }
        parentFrames := parentFrames[..|parentFrames| - 1];
      }
      completion := if closes then Completed else Refused(InvalidJson);
    }

    // ---- One batch

    // The rest of the batch from here, as the specification sees it.
    ghost function Rest(taken: seq<Row>, limits: Limits, answer: nat -> nat, c: nat): Filling
      reads this, plan
      requires Fixed() && goal.Some? && |taken| <= limits.rowCapacity
    {
      Fill(Src(), goal.value, limits, targetPosition, taken, answer, c)
    }

    // What may be relied on once a batch has ended.
    ghost predicate EndedWith(end: End, status: StatusCode)
      reads this, plan
    {
      && Fixed() && goal.Some? && state == Running
      && match end
         case Full | Overflow => status == OK && Intact()
         case Interrupted(answer) => status == ProbeCode(answer) && Intact()
         case Drained => status == OK && Unwound()
         case RowFailed =>
           targetPosition < |targetRows| && RowCode(targetRows[targetPosition], paths, status) && status != OK
         case RowUnfit(how) => status == AppendCode(how) != OK
         case Unfinished(completion) => status == CompletionCode(completion) != OK
    }

    ghost predicate Unwound()
      reads this
    {
      && goal.Some? && targetPosition == |targetRows| && !pendingRow
      && projectionAttempts == committedRows
      && parentFrames == []
      && (!retried ==> validated == Before(goal.value.frames) + After(goal.value.frames))
    }

    /** One turn of the batch loop: a row is taken, or the batch ends. */
    method TakeRow(probe: Probe, batch: Batch, ghost taken: seq<Row>, ghost limits: Limits, ghost rest: Filling)
      returns (end: Option<End>, status: StatusCode, row: Row)
      requires Intact() && goal.Some? && state == Running
      requires batch.Holds(taken) && |taken| < batch.rows.Length
      requires batch.producedSlots + |paths| <= batch.slots.Length
      requires limits == batch.LimitsWith(encodedByteLimit)
      requires rest == Rest(taken, limits, probe.answer, probe.checks)
      modifies this`targetPosition, this`parentFrames, this`pendingSlots, this`pendingRowIndex, this`pendingRow,
               this`currentRowIndex, this`projectionAttempts, this`committedRows, this`validated, probe, batch,
               batch.rows, batch.slots, batch.copiedBytes
      ensures batch.done == old(batch.done)
      ensures Fixed()
      ensures
        if end.Some? then
          && rest == Filling(taken, targetPosition, end.value, probe.checks)
          && EndedWith(end.value, status)
          && (status == OK ==> batch.Holds(taken))
        else
          && Intact() && targetPosition == old(targetPosition) + 1
          && batch.Holds(taken + [row]) && |row.slots| == |paths|
          && Rest(taken + [row], limits, probe.answer, probe.checks) == rest
    {
      hide Published, RowCode, ProbeCode, Before, After, Locate, Complete, RowSlots, Fill, AppendRow;
      hide StoreAll, StoreRows, Encoded, TextOf;
      row := Row(0, []);
      ghost var start := probe.checks;
      end, status := PrepareRow(probe, taken, limits);
      if end.None? {
        row := Row(pendingRowIndex, pendingSlots);
        FillAppends(Src(), goal.value, limits, taken, row, probe.answer, start);
        end, status := AppendReady(probe, batch, taken);
      }
    }

    method AppendReady(probe: Probe, batch: Batch, ghost taken: seq<Row>)
      returns (end: Option<End>, status: StatusCode)
      requires Intact() && goal.Some? && state == Running && pendingRow
      requires batch.Holds(taken) && |taken| < batch.rows.Length
      requires batch.producedSlots + |pendingSlots| <= batch.slots.Length
      modifies this`targetPosition, this`pendingSlots, this`pendingRow, this`currentRowIndex, this`committedRows,
               probe, batch, batch.rows, batch.slots, batch.copiedBytes
      ensures batch.done == old(batch.done)
      ensures
        var row := old(Row(pendingRowIndex, pendingSlots));
        var appended :=
          AppendRow(taken, row.slots, batch.LimitsWith(encodedByteLimit), probe.answer, old(probe.checks));
        && probe.checks == appended.1
        && match appended.0
           case Appended => end == None && Intact() && targetPosition == row.index + 1 && batch.Holds(taken + [row])
           case DoesNotFit =>
             end == Some(Overflow) && EndedWith(Overflow, status) && targetPosition == row.index && batch.Holds(taken)
           case why => end == Some(RowUnfit(why)) && EndedWith(RowUnfit(why), status) && targetPosition == row.index
    {
      hide Published, Before, After, Locate, Complete, RowSlots, Fill, AppendRow;
      var how := batch.AppendPending(Row(pendingRowIndex, pendingSlots), encodedByteLimit, probe, taken);
      status := AppendCode(how);
      if how != Appended {
        end := Some(if how == DoesNotFit then Overflow else RowUnfit(how));
        return;
      }
      end := None;
      CommitRow();
    }

    // Everything of a turn before the append: a pending row is ready, or the batch ends.
    method PrepareRow(probe: Probe, ghost taken: seq<Row>, ghost limits: Limits)
      returns (end: Option<End>, status: StatusCode)
      requires Intact() && goal.Some? && state == Running && |taken| < limits.rowCapacity
      modifies this`parentFrames, this`pendingSlots, this`pendingRowIndex, this`pendingRow, this`projectionAttempts,
               this`validated, probe
      ensures Fixed()
      ensures
        if end.Some? then
          && old(Rest(taken, limits, probe.answer, probe.checks)) ==
               Filling(taken, targetPosition, end.value, probe.checks)
          && EndedWith(end.value, status) && end.value != Overflow
        else
          && Intact() && pendingRow && probe.checks == old(probe.checks) + 1 && probe.answer(old(probe.checks)) == 0
    {
      hide Published, Before, After, Locate, Unwind, RowSlots;
      var answer := probe.Ask();
      if answer != 0 {
        return Some(Interrupted(answer)), ProbeCode(answer);
      }
      if !pendingRow && targetPosition == |targetRows| {
        var completion := ValidateSourceCompletion(probe);
        end := Some(if completion == Completed then Drained else Unfinished(completion));
        return end, CompletionCode(completion);
      }
      if !pendingRow {
        status := ProjectCurrentRow();
        if status != OK {
          return Some(RowFailed), status;
        }
      }
      end, status := None, OK;
    }

    method CommitRow()
      requires Intact() && pendingRow
      modifies this`targetPosition, this`pendingSlots, this`pendingRow, this`currentRowIndex, this`committedRows
      ensures Intact() && !pendingRow && targetPosition == old(targetPosition) + 1
    {
      hide Published, Before, Locate, RowSlots;
      pendingRow := false;
      pendingSlots := [];
      targetPosition := targetPosition + 1;
      currentRowIndex := currentRowIndex + 1;
      committedRows := committedRows + 1;
    }

    /** Takes rows until the batch ends; the status says why. */
    method TakeRows(probe: Probe, batch: Batch) returns (end: End, status: StatusCode, ghost taken: seq<Row>)
      requires Intact() && goal.Some? && state == Running
      requires batch.Holds([]) && 0 < batch.rows.Length <= rowLimit
      requires SlotsSuffice(batch.LimitsWith(encodedByteLimit), |paths|)
      modifies this`targetPosition, this`parentFrames, this`pendingSlots, this`pendingRowIndex, this`pendingRow,
               this`currentRowIndex, this`projectionAttempts, this`committedRows, this`validated, probe, batch,
               batch.rows, batch.slots, batch.copiedBytes
      ensures batch.done == old(batch.done)
      ensures EndedWith(end, status)
      ensures old(Rest([], batch.LimitsWith(encodedByteLimit), probe.answer, probe.checks)) ==
                Filling(taken, targetPosition, end, probe.checks)
      ensures status == OK ==> batch.Holds(taken)
    {
      NothingIsEven(|paths|);
      hide Published, Before, After, Locate, Complete, RowSlots, Fill, AppendRow, Even;
      ghost var limits := batch.LimitsWith(encodedByteLimit);
      taken := [];
      status := OK;
      while batch.producedRows < batch.rows.Length && batch.producedRows < rowLimit
        invariant Intact() && batch.Holds(taken) && batch.done == old(batch.done) && status == OK
        invariant Even(taken, |paths|)
        invariant Rest(taken, limits, probe.answer, probe.checks) ==
                  old(Rest([], limits, probe.answer, probe.checks))
        decreases batch.rows.Length - batch.producedRows
      {
        RoomForRow(batch, taken, |paths|);
        var turn, row;
        turn, status, row :=
          TakeRow(probe, batch, taken, limits, Rest(taken, limits, probe.answer, probe.checks));
        if turn.Some? {
          end := turn.value;
          return;
        }
        EvenGrows(taken, row, |paths|);
        taken := taken + [row];
        status := OK;
      }
      end, status := FinishRows(probe, taken, limits);
    }

    // After the last row a batch has room for, the source may be exhausted too.
    method FinishRows(probe: Probe, ghost taken: seq<Row>, ghost limits: Limits)
      returns (end: End, status: StatusCode)
      requires Intact() && goal.Some? && state == Running && |taken| == limits.rowCapacity
      modifies this`parentFrames, this`validated, probe
      ensures EndedWith(end, status)
      ensures old(Rest(taken, limits, probe.answer, probe.checks)) ==
                Filling(taken, targetPosition, end, probe.checks)
    {
      hide Published, Before, After, Locate, RowSlots, Unwind;
      if !pendingRow && targetPosition == |targetRows| {
        var completion := ValidateSourceCompletion(probe);
        end := if completion == Completed then Drained else Unfinished(completion);
        status := CompletionCode(completion);
      } else {
        end, status := Full, OK;
      }
    }

    // What the caller of a batch finds in its storage.
    ghost predicate Delivered(f: Filling, status: StatusCode, batch: Batch)
      reads this, batch, batch.rows, batch.slots, batch.copiedBytes
    {
      match f.end
      case Full | Overflow => status == OK && batch.Holds(f.taken) && !batch.done
      case Drained => status == OK && batch.Holds(f.taken) && batch.done
      case _ => status != OK && batch.Cleared() && goal.Some? && BrokenOffCode(Src(), goal.value.rows, f, status)
    }

    method FillBatch(probe: Probe, batch: Batch) returns (status: StatusCode)
      requires Intact() && goal.Some? && state == Running
      requires batch.Cleared() && 0 < batch.rows.Length <= rowLimit
      requires SlotsSuffice(batch.LimitsWith(encodedByteLimit), |paths|)
      modifies this, probe, batch, batch.rows, batch.slots, batch.copiedBytes
      ensures Valid()
      ensures
        var f := old(Rest([], batch.LimitsWith(encodedByteLimit), probe.answer, probe.checks));
        && View() == AfterFilling(old(View()), f) && probe.checks == f.checks
        && Delivered(f, status, batch)
    {
      hide Published, Before, After, Locate, Fill, Executed, StoreAll, StoreRows, Encoded, Flat, TextOf;
      ghost var taken;
      var end;
      end, status, taken := TakeRows(probe, batch);
      Settle(end, status, batch, Filling(taken, targetPosition, end, probe.checks));
    }

    // Publishes the batch and goes on, or clears it.
    method Settle(end: End, status: StatusCode, batch: Batch, ghost f: Filling)
      requires EndedWith(end, status) && f.end == end && f.position == targetPosition
      requires (status == OK ==> batch.Holds(f.taken)) && !batch.done
      modifies this`state, this`batchSequence, batch, batch.rows, batch.slots
      ensures Valid() && View() == AfterFilling(old(View()), f) && Delivered(f, status, batch)
    {
      hide Published, Before, After, Locate, Executed, RowSlots, StoreAll, StoreRows, Encoded, Flat, TextOf, RowCode;
      if status == OK {
        batch.done := end == Drained;
        batchSequence := batchSequence + 1;
        state := if end == Drained then Finished else Ready;
      } else {
        batch.Clear();
        state := if end.Interrupted? && status != Cancelled then Ready else Dead;
      }
    }

    /** One call for one batch, exactly as specified. */
    method NextBatch(probe: Probe, batch: Batch) returns (status: StatusCode)
      requires Valid()
      modifies this, probe, batch, batch.rows, batch.slots, batch.copiedBytes
      ensures Valid()
      ensures !batch.Acceptable(rowLimit, encodedByteLimit) ==>
                && status == InvalidArgument && View() == old(View()) && probe.checks == old(probe.checks)
                && batch.done == old(batch.done) && batch.producedRows == old(batch.producedRows)
                && batch.rows[..] == old(batch.rows[..]) && batch.slots[..] == old(batch.slots[..])
                && batch.copiedBytes[..] == old(batch.copiedBytes[..])
      ensures batch.Acceptable(rowLimit, encodedByteLimit) ==>
                var call := Call(batch.LimitsWith(encodedByteLimit), probe.answer, old(probe.checks));
                var step := Next(Src(), old(View()), call);
                View() == step.state && Answers(step.reply, status, batch)
    {
      if !batch.Acceptable(rowLimit, encodedByteLimit) {
        return InvalidArgument;
      }
      hide Published, Locate, Fill, Before, After;
      batch.Clear();
      status := Proceed(probe, batch);
    }

    method Proceed(probe: Probe, batch: Batch) returns (status: StatusCode)
      requires Valid() && batch.Cleared() && 0 < batch.rows.Length <= rowLimit
      modifies this, probe, batch, batch.rows, batch.slots, batch.copiedBytes
      ensures Valid()
      ensures
        var call := Call(batch.LimitsWith(encodedByteLimit), probe.answer, old(probe.checks));
        var step := Next(Src(), old(View()), call);
        View() == step.state && Answers(step.reply, status, batch)
    {
      hide Published, Before, After, Locate, Fill, Executed, StoreAll, StoreRows, Encoded, Flat, TextOf;
      var answer := probe.Ask();
      if answer > 1 {
        return InvalidArgument;
      }
      if answer == 1 {
        if state == Ready {
          state := Dead;
        }
        return Cancelled;
      }
      if state != Ready {
        if state == Finished {
          batch.done := true;
          return OK;
        }
        return if state == Dead then Cancelled else CursorState;
      }
      state := Running;
      status := Run(probe, batch);
    }

    ghost predicate Answers(reply: Reply, status: StatusCode, batch: Batch)
      reads this, batch, batch.rows, batch.slots, batch.copiedBytes
    {
      match reply
      case Batch(rows, done) => status == OK && batch.Holds(rows) && batch.done == done
      case Denied(why) => status != OK && batch.Cleared() && DenialCode(Src(), View(), why, status)
    }

    method Run(probe: Probe, batch: Batch) returns (status: StatusCode)
      requires Intact() && state == Running
      requires batch.Cleared() && 0 < batch.rows.Length <= rowLimit && probe.checks > 0
      modifies this, probe, batch, batch.rows, batch.slots, batch.copiedBytes
      ensures Valid()
      ensures
        var call := Call(batch.LimitsWith(encodedByteLimit), probe.answer, old(probe.checks) - 1);
        var step := RunStep(Src(), old(View()).(phase := Ready), call);
        View() == step.state && Answers(step.reply, status, batch)
    {
      hide Published, Before, After, Locate, Fill, Executed, StoreAll, StoreRows, Encoded, Flat, TextOf;
      if !targetLocated {
        status := LocateTarget();
        if status != OK {
          state := Ready;
          return;
        }
      }
      status := RunLocated(probe, batch, View().(phase := Ready),
                           Call(batch.LimitsWith(encodedByteLimit), probe.answer, probe.checks - 1));
    }

    method RunLocated(probe: Probe, batch: Batch, ghost s: State, ghost call: Call) returns (status: StatusCode)
      requires Intact() && state == Running && goal.Some? && s == View().(phase := Ready)
      requires batch.Cleared() && 0 < batch.rows.Length <= rowLimit
      requires call.limits == batch.LimitsWith(encodedByteLimit) && call.answer == probe.answer
      requires call.first + 1 == probe.checks
      modifies this, probe, batch, batch.rows, batch.slots, batch.copiedBytes
      ensures Valid()
      ensures
        var step := FillStep(Src(), s, call);
        View() == step.state && Answers(step.reply, status, batch)
    {
      assert plan.outputSlots == |paths|;
      FillStepIs(Src(), View(), call);
      hide Published, Locate, Executed, FillStep, Fill, AfterFilling, ReplyTo, Answers;
      if plan.outputSlots == 0 || batch.rows.Length * plan.outputSlots > batch.slots.Length {
        status := RefuseStorage(batch);
        return;
      }
      status := FillAndAnswer(probe, batch);
    }

    method RefuseStorage(batch: Batch) returns (status: StatusCode)
      requires Intact() && state == Running && batch.Cleared()
      modifies this`state
      ensures Valid() && View() == old(View()).(phase := Ready)
      ensures Answers(Denied(TooFewSlots), status, batch)
    {
      state := Ready;
      status := InvalidArgument;
    }

    method FillAndAnswer(probe: Probe, batch: Batch) returns (status: StatusCode)
      requires Intact() && state == Running && goal.Some?
      requires batch.Cleared() && 0 < batch.rows.Length <= rowLimit
      requires SlotsSuffice(batch.LimitsWith(encodedByteLimit), |paths|)
      modifies this, probe, batch, batch.rows, batch.slots, batch.copiedBytes
      ensures Valid()
      ensures
        var f := old(Rest([], batch.LimitsWith(encodedByteLimit), probe.answer, probe.checks));
        View() == AfterFilling(old(View()), f) && Answers(ReplyTo(f), status, batch)
    {
      hide Published, Before, After, Locate, Fill, Executed, RowSlots, Answers;
      ghost var f := Rest([], batch.LimitsWith(encodedByteLimit), probe.answer, probe.checks);
      status := FillBatch(probe, batch);
      DeliveredAnswers(f, status, batch);
    }

    lemma DeliveredAnswers(f: Filling, status: StatusCode, batch: Batch)
      requires Delivered(f, status, batch) && goal.Some?
      ensures Answers(ReplyTo(f), status, batch)
    {
    }
  }

  /** With a projected row at hand, the rest of a batch is decided by appending it. */
  lemma FillAppends(src: Source, goal: Goal, limits: Limits, taken: seq<Row>, row: Row, answer: nat -> nat, c: nat)
    requires goal.Valid() && row.index < |goal.rows| && |taken| < limits.rowCapacity && answer(c) == 0
    requires RowSlots(goal.rows[row.index], src.paths) == Some(row.slots)
    ensures
      var rest := Fill(src, goal, limits, row.index, taken, answer, c);
      var appended := AppendRow(taken, row.slots, limits, answer, c + 1);
      match appended.0
      case Appended => rest == Fill(src, goal, limits, row.index + 1, taken + [row], answer, appended.1)
      case DoesNotFit => rest == Filling(taken, row.index, Overflow, appended.1)
      case why => rest == Filling(taken, row.index, RowUnfit(why), appended.1)
  {
  }

  // The phase a cursor is in while it fills a batch leaves no trace.
  lemma FillStepIs(src: Source, s: State, call: Call)
    requires s.goal.Some? && s.goal.value.Valid() && s.position <= |s.goal.value.rows|
    ensures
      var step := FillStep(src, s.(phase := Ready), call);
      if SlotsSuffice(call.limits, |src.paths|) then
        var f := Fill(src, s.goal.value, call.limits, s.position, [], call.answer, call.first + 1);
        step.state == AfterFilling(s, f) && step.reply == ReplyTo(f)
      else step == Step(s.(phase := Ready), Denied(TooFewSlots))
  {
    hide Fill;
  }

  // Every row has the same number of slots.
  ghost predicate Even(taken: seq<Row>, slotCount: nat) {
    |Flat(taken)| == |taken| * slotCount
  }

  lemma NothingIsEven(slotCount: nat)
    ensures Even([], slotCount)
  {
  }

  lemma EvenGrows(taken: seq<Row>, row: Row, slotCount: nat)
    requires Even(taken, slotCount) && |row.slots| == slotCount
    ensures Even(taken + [row], slotCount)
  {
    assert (taken + [row])[..|taken|] == taken;
    assert (|taken| + 1) * slotCount == |taken| * slotCount + slotCount;
  }

  lemma RoomForRow(batch: Batch, taken: seq<Row>, slotCount: nat)
    requires batch.Holds(taken) && Even(taken, slotCount) && |taken| < batch.rows.Length
    requires batch.rows.Length * slotCount <= batch.slots.Length
    ensures batch.producedSlots + slotCount <= batch.slots.Length
  {
    hide Flat;
    RoomForOneMore(|taken|, batch.rows.Length, slotCount);
  }

  lemma RoomForOneMore(count: nat, capacity: nat, slotCount: nat)
    requires count < capacity
    ensures count * slotCount + slotCount <= capacity * slotCount
  {
    assert capacity * slotCount == (count + 1) * slotCount + (capacity - count - 1) * slotCount;
  }

  lemma ExecutedIsRowSlots(v: Value, paths: seq<Path>, status: Status, slots: seq<Slot>)
    requires Executed(v, paths, status, slots)
    ensures status.code == OK ==> RowSlots(v, paths) == Some(slots)
    ensures status.code != OK ==> RowSlots(v, paths).None? && RowCode(v, paths, status.code)
  {
    if status.code == OK {
      var row := RowSlots(v, paths).value;
      assert forall s: nat :: s < |paths| ==> row[s] == slots[s];
      assert row == slots;
    }
  }
}
