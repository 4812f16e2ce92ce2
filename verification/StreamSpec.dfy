/** One call of the batch cursor as a function of what it finds: the rows left, the limits, the probe. */
module StreamSpec {
  import opened Json
  import opened Validation
  import opened ProjectionSpec
  import opened StreamTarget
  import opened StreamZipper
  import opened StreamBatch

  // ---- Rows

  /** The slots of one projected row, if it projects. */
  ghost function RowSlots(v: Value, paths: seq<Path>): (r: Option<seq<Slot>>)
    ensures r.Some? ==> |r.value| == |paths|
  {
    if HardFailure(v, 1).None? && AllFound(v, paths)
    then Some(seq(|paths|, s requires 0 <= s < |paths| => Lookup(v, paths[s]).slot))
    else None
  }

  /** The projections of `rows[lo..hi]`, numbered from `lo`. */
  ghost predicate Projected(taken: seq<Row>, rows: seq<Value>, paths: seq<Path>, lo: nat, hi: nat) {
    && lo <= hi <= |rows| && |taken| == hi - lo
    && forall k :: 0 <= k < |taken| ==>
         taken[k].index == lo + k && RowSlots(rows[lo + k], paths) == Some(taken[k].slots)
  }

  // ---- Completing the source

  datatype Completion = Completed | Halted(answer: nat) | Refused(code: StatusCode)

  /** Validates the siblings from item `i` on, one check before each. */
  ghost function Siblings(v: Value, i: nat, depth: nat, answer: nat -> nat, c: nat): (r: (Completion, nat))
    requires i <= Size(v)
    ensures r.0.Refused? ==> r.0.code != OK
    ensures r.0.Halted? ==> r.0.answer != 0
    decreases Size(v) - i
  {
    if i == Size(v) then (Completed, c)
    else if answer(c) != 0 then (Halted(answer(c)), c + 1)
    else if !ItemReadable(v, i) then (Refused(StreamStatus(v.fields[i].error)), c + 1)
    else if HardFailure(Item(v, i), depth + 1).Some? then (Refused(HardFailure(Item(v, i), depth + 1).value), c + 1)
    else Siblings(v, i + 1, depth, answer, c + 1)
  }

  /** Unwinds the parents, innermost first, and then requires the document to end. */
  ghost function Unwind(frames: seq<Frame>, closes: bool, answer: nat -> nat, c: nat): (r: (Completion, nat))
    requires AllValid(frames)
    ensures r.0.Refused? ==> r.0.code != OK
    ensures r.0.Halted? ==> r.0.answer != 0
  {
    if frames == [] then (if closes then Completed else Refused(InvalidJson), c)
    else
      var top := frames[|frames| - 1];
      var siblings := Siblings(top.container, top.position + 1, top.depth, answer, c);
      if siblings.0 != Completed then siblings
      else Unwind(frames[..|frames| - 1], closes, answer, siblings.1)
  }

  ghost function Complete(frames: seq<Frame>, closes: bool, answer: nat -> nat, c: nat): (r: (Completion, nat))
    requires AllValid(frames)
    ensures r.0.Refused? ==> r.0.code != OK
    ensures r.0.Halted? ==> r.0.answer != 0
  {
    if answer(c) != 0 then (Halted(answer(c)), c + 1) else Unwind(frames, closes, answer, c + 1)
  }

  // ---- Filling a batch

  /** What searching a root that was already started comes out as. The parser has moved on by then, so
    * this may be any target, or any failure. */
  ghost predicate Answerable(located: Located) {
    match located
    case Target(_, frames) => AllValid(frames)
    case NoTarget(code) => code != OK
  }

  type Answer = located: Located | Answerable(located) ghost witness NoTarget(InvalidJson)

  /** What a cursor is made for; fixed over its life. `closes` tells whether nothing follows the root
    * value, `again` what search number `n` finds if the root was started by an earlier one. */
  datatype Source = Source(document: Value, closes: bool, again: nat -> Answer, path: Path, paths: seq<Path>)

  datatype Goal = Goal(rows: seq<Value>, frames: seq<Frame>)
  {
    ghost predicate Valid() {
      AllValid(frames)
    }
  }

  datatype End =
    | Full
    | Overflow
    | Drained
    | Interrupted(answer: nat)
    | RowFailed
    | RowUnfit(why: Append)
    | Unfinished(completion: Completion)

  datatype Filling = Filling(taken: seq<Row>, position: nat, end: End, checks: nat)

  ghost function EndOfRows(src: Source, goal: Goal, position: nat, taken: seq<Row>, answer: nat -> nat, c: nat)
    : Filling
    requires goal.Valid()
  {
    var completion := Complete(goal.frames, src.closes, answer, c);
    Filling(taken, position, if completion.0 == Completed then Drained else Unfinished(completion.0), completion.1)
  }

  /** Takes rows from `position` on until the batch or the source is full, or something goes wrong. */
  ghost function Fill(src: Source, goal: Goal, limits: Limits, position: nat, taken: seq<Row>, answer: nat -> nat,
                      c: nat): (r: Filling)
    requires goal.Valid() && position <= |goal.rows| && |taken| <= limits.rowCapacity
    ensures r.position <= |goal.rows|
    decreases |goal.rows| - position
  {
    if |taken| == limits.rowCapacity then
      if position == |goal.rows| then EndOfRows(src, goal, position, taken, answer, c)
      else Filling(taken, position, Full, c)
    else if answer(c) != 0 then Filling(taken, position, Interrupted(answer(c)), c + 1)
    else if position == |goal.rows| then EndOfRows(src, goal, position, taken, answer, c + 1)
    else
      var slots := RowSlots(goal.rows[position], src.paths);
      if slots.None? then Filling(taken, position, RowFailed, c + 1)
      else
        var appended := AppendRow(taken, slots.value, limits, answer, c + 1);
        match appended.0
        case Appended =>
          Fill(src, goal, limits, position + 1, taken + [Row(position, slots.value)], answer, appended.1)
        case DoesNotFit => Filling(taken, position, Overflow, appended.1)
        case why => Filling(taken, position, RowUnfit(why), appended.1)
  }

  // ---- One call

  datatype Phase = Ready | Running | Finished | Dead

  /** `started` tells whether a search opened the root, `retried` whether a later search found its
    * started root again. */
  datatype State = State(phase: Phase, started: bool, searches: nat, retried: bool, goal: Option<Goal>,
                         position: nat)

  const START := State(Ready, false, 0, false, None, 0)

  /** A call's inputs: the storage limits, the probe and the number of its first check. */
  datatype Call = Call(limits: Limits, answer: nat -> nat, first: nat)

  datatype Reply =
    | Batch(rows: seq<Row>, done: bool)
    | Denied(why: Denial)

  datatype Denial =
    | BadProbe
    | CancelledFirst
    | WrongPhase(phase: Phase)
    | TargetMissing(code: StatusCode)
    | TooFewSlots
    | BrokenOff(filling: Filling)

  datatype Step = Step(state: State, reply: Reply)

  /** The goal of the first search that opens the root is the target of the path. */
  ghost predicate OnTarget(src: Source, s: State) {
    s.goal.Some? && !s.retried ==>
      Locate(src.document, src.path, []) == Target(s.goal.value.rows, s.goal.value.frames)
  }

  ghost predicate Coherent(s: State) {
    && (s.goal.Some? ==> s.goal.value.Valid() && s.position <= |s.goal.value.rows|)
    && (s.goal.None? ==> s.position == 0)
  }

  /** One search: over the document the first time, and afterwards over whatever is left of it. */
  ghost function Search(src: Source, s: State): (r: Located)
    ensures Answerable(r)
  {
    if s.started then src.again(s.searches)
    else
      var located := Locate(src.document, src.path, []);
      if located.Target? then LocatedFramesAreValid(src.document, src.path, []); located else located
  }

  // Opening the root succeeds if it is the container that the path starts with.
  predicate RootOpens(v: Value, path: Path) {
    if path == [] then v.Array? else Opens(v, path[0])
  }

  ghost function Searched(src: Source, s: State): State {
    s.(started := s.started || RootOpens(src.document, src.path), searches := s.searches + 1,
       retried := s.retried || s.started)
  }

  predicate SlotsSuffice(limits: Limits, slotCount: nat) {
    slotCount > 0 && limits.rowCapacity * slotCount <= limits.slotCapacity
  }

  function AfterFilling(s: State, f: Filling): State {
    var phase := match f.end
      case Full | Overflow => Ready
      case Drained => Finished
      case Interrupted(a) => if a == 1 then Dead else Ready
      case _ => Dead;
    s.(phase := phase, position := f.position)
  }

  function ReplyTo(f: Filling): Reply {
    match f.end
    case Full | Overflow => Batch(f.taken, false)
    case Drained => Batch(f.taken, true)
    case _ => Denied(BrokenOff(f))
  }

  ghost function FillStep(src: Source, s: State, call: Call): Step
    requires s.goal.Some? && s.goal.value.Valid() && s.position <= |s.goal.value.rows|
  {
    if !SlotsSuffice(call.limits, |src.paths|) then Step(s, Denied(TooFewSlots))
    else
      var f := Fill(src, s.goal.value, call.limits, s.position, [], call.answer, call.first + 1);
      Step(AfterFilling(s, f), ReplyTo(f))
  }

  /** The state after the search for the target, if one is due: a target once found is kept. */
  ghost function Aimed(src: Source, s: State): (r: State)
    requires Coherent(s)
    ensures Coherent(r) && r.phase == s.phase && r.position == s.position
  {
    if s.goal.Some? then s
    else
      match Search(src, s)
      case NoTarget(_) => Searched(src, s)
      case Target(rows, frames) => Searched(src, s).(goal := Some(Goal(rows, frames)))
  }

  ghost function RunStep(src: Source, s: State, call: Call): Step
    requires Coherent(s)
  {
    var t := Aimed(src, s);
    if t.goal.None? then Step(t, Denied(TargetMissing(Search(src, s).code))) else FillStep(src, t, call)
  }

  /** One call for one batch. */
  ghost function Next(src: Source, s: State, call: Call): Step
    requires Coherent(s)
  {
    var first := call.answer(call.first);
    if first > 1 then Step(s, Denied(BadProbe))
    else if first == 1 then Step(if s.phase == Ready then s.(phase := Dead) else s, Denied(CancelledFirst))
    else if s.phase == Finished then Step(s, Batch([], true))
    else if s.phase != Ready then Step(s, Denied(WrongPhase(s.phase)))
    else RunStep(src, s, call)
  }

  lemma {:induction false} LocatedFramesAreValid(v: Value, path: Path, frames: seq<Frame>)
    requires Locate(v, path, frames).Target? && AllValid(frames)
    ensures AllValid(Locate(v, path, frames).frames)
    decreases |path|
  {
    if path != [] {
      var i := Choose(v, path[0], 0).index;
      LocatedFramesAreValid(Item(v, i), path[1..], frames + [Frame(v, i, |frames| + 1)]);
    }
  }
}
