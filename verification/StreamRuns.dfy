/** Whole runs of the batch cursor: what any sequence of calls delivers. */
module StreamRuns {
  import opened Json
  import opened Validation
  import opened ProjectionSpec
  import opened Soundness
  import opened StreamTarget
  import opened StreamZipper
  import opened StreamBatch
  import opened StreamSpec
  import opened StreamFill
  import opened StreamWhole

  ghost function RowsOf(s: State): seq<Value> {
    if s.goal.Some? then s.goal.value.rows else []
  }

  function RowsIn(reply: Reply): seq<Row> {
    if reply.Batch? then reply.rows else []
  }

  /** Rows that a call took but did not hand over, although the cursor can go on: only a probe that
    * answers neither 0 nor 1 in the middle of a batch does this. */
  function LostIn(reply: Reply): nat {
    if reply.Denied? && reply.why.BrokenOff? && reply.why.filling.end.Interrupted?
       && reply.why.filling.end.answer > 1
    then |reply.why.filling.taken| else 0
  }

  /** Each delivered row is the projection of the element it is numbered after, in increasing order. */
  ghost predicate InOrder(delivered: seq<Row>, rows: seq<Value>, paths: seq<Path>, bound: nat) {
    && bound <= |rows|
    && (forall k :: 0 <= k < |delivered| ==>
          delivered[k].index < bound && RowSlots(rows[delivered[k].index], paths) == Some(delivered[k].slots))
    && (forall j, k :: 0 <= j < k < |delivered| ==> delivered[j].index < delivered[k].index)
  }

  /** The invariant of every run. */
  ghost predicate Accounted(src: Source, s: State, delivered: seq<Row>, lost: nat) {
    && Coherent(s) && OnTarget(src, s)
    && (forall i :: 0 <= i < s.position ==> RowSlots(RowsOf(s)[i], src.paths).Some?)
    && InOrder(delivered, RowsOf(s), src.paths, s.position)
    && |delivered| + lost <= s.position
    && (lost == 0 ==> Projected(delivered, RowsOf(s), src.paths, 0, |delivered|))
    && (s.phase == Ready || s.phase == Finished ==> |delivered| + lost == s.position)
    && (s.phase == Finished ==>
          && s.goal.Some? && s.position == |RowsOf(s)| && src.closes
          && (!s.retried ==> Sound(src.document)))
  }

  // ---- One call

  lemma MoreInOrder(delivered: seq<Row>, taken: seq<Row>, rows: seq<Value>, paths: seq<Path>, p: nat, q: nat)
    requires InOrder(delivered, rows, paths, p) && Projected(taken, rows, paths, p, q)
    ensures InOrder(delivered + taken, rows, paths, q)
    ensures Projected(delivered, rows, paths, 0, p) ==> Projected(delivered + taken, rows, paths, 0, q)
  {
  }

  lemma InOrderWidens(delivered: seq<Row>, rows: seq<Value>, paths: seq<Path>, p: nat, q: nat)
    requires InOrder(delivered, rows, paths, p) && p <= q <= |rows|
    ensures InOrder(delivered, rows, paths, q)
  {
  }

  ghost function FillingOf(src: Source, s: State, call: Call): Filling
    requires s.goal.Some? && s.goal.value.Valid() && s.position <= |s.goal.value.rows|
  {
    Fill(src, s.goal.value, call.limits, s.position, [], call.answer, call.first + 1)
  }

  lemma FilledTakes(src: Source, s: State, call: Call)
    requires Coherent(s) && s.goal.Some?
    ensures
      var f := FillingOf(src, s, call);
      && Projected(f.taken, s.goal.value.rows, src.paths, s.position, f.position)
      && EndsWell(src, s.goal.value, call.limits, call.answer, f)
      && WithinLimits(f.taken, call.limits)
  {
    hide Fill, RowSlots, Complete, Locate, EndsWell;
    FillTakesRows(src, s.goal.value, call.limits, s.position, [], call.answer, call.first + 1, s.position);
  }

  lemma ProjectedSofar(rows: seq<Value>, paths: seq<Path>, taken: seq<Row>, p: nat, q: nat)
    requires Projected(taken, rows, paths, p, q)
    requires forall i :: 0 <= i < p ==> RowSlots(rows[i], paths).Some?
    ensures forall i :: 0 <= i < q ==> RowSlots(rows[i], paths).Some?
  {
    hide RowSlots;
    forall i | p <= i < q ensures RowSlots(rows[i], paths).Some? {
      assert RowSlots(rows[p + (i - p)], paths) == Some(taken[i - p].slots);
    }
  }

  lemma DrainedIsSound(src: Source, s: State, call: Call)
    requires Coherent(s) && OnTarget(src, s) && s.goal.Some? && FillingOf(src, s, call).end == Drained
    requires forall i :: 0 <= i < s.position ==> RowSlots(RowsOf(s)[i], src.paths).Some?
    ensures src.closes && (!s.retried ==> Sound(src.document))
  {
    var f := FillingOf(src, s, call);
    var goal := s.goal.value;
    FilledTakes(src, s, call);
    hide Fill, RowSlots, Complete, Locate, Sound;
    assert RowsOf(s) == goal.rows;
    ProjectedSofar(goal.rows, src.paths, f.taken, s.position, f.position);
    var k: nat :| Complete(goal.frames, src.closes, call.answer, k).0 == Completed;
    UnwindPasses(goal.frames, src.closes, call.answer, k + 1);
    assert src.closes by {
      CompletedUnwinds(goal.frames, src.closes, call.answer, k);
    }
    if !s.retried {
      FinishedIsSound(src.document, src.path, src.paths, src.closes, call.answer, k);
    }
  }

  lemma CompletedUnwinds(frames: seq<Frame>, closes: bool, answer: nat -> nat, c: nat)
    requires AllValid(frames) && Complete(frames, closes, answer, c).0 == Completed
    ensures Unwind(frames, closes, answer, c + 1).0 == Completed
  {
  }

  lemma FillAccounts(src: Source, s: State, call: Call, delivered: seq<Row>, lost: nat)
    requires Accounted(src, s, delivered, lost) && s.phase == Ready && s.goal.Some?
    ensures
      var step := FillStep(src, s, call);
      Accounted(src, step.state, delivered + RowsIn(step.reply), lost + LostIn(step.reply))
  {
    hide Fill, RowSlots, Locate, Sound, Complete;
    if SlotsSuffice(call.limits, |src.paths|) {
      var f := FillingOf(src, s, call);
      FilledTakes(src, s, call);
      if f.end == Drained {
        DrainedIsSound(src, s, call);
      }
      TakingAccounts(src, s, call, f, delivered, lost);
    }
    assert delivered + [] == delivered;
  }

  lemma TakingAccounts(src: Source, s: State, call: Call, f: Filling, delivered: seq<Row>, lost: nat)
    requires Accounted(src, s, delivered, lost) && s.phase == Ready && s.goal.Some?
    requires Projected(f.taken, RowsOf(s), src.paths, s.position, f.position)
    requires f.end == Drained ==>
               f.position == |RowsOf(s)| && src.closes && (!s.retried ==> Sound(src.document))
    requires f.end.Interrupted? ==> f.end.answer != 0
    ensures Accounted(src, AfterFilling(s, f), delivered + RowsIn(ReplyTo(f)), lost + LostIn(ReplyTo(f)))
  {
    hide RowSlots, Locate, Sound;
    MoreInOrder(delivered, f.taken, RowsOf(s), src.paths, s.position, f.position);
    InOrderWidens(delivered, RowsOf(s), src.paths, s.position, f.position);
    ProjectedSofar(RowsOf(s), src.paths, f.taken, s.position, f.position);
    assert delivered + [] == delivered;
  }

  /** Every call keeps the account of delivered and lost rows. */
  lemma StepAccounts(src: Source, s: State, call: Call, delivered: seq<Row>, lost: nat)
    requires Accounted(src, s, delivered, lost)
    ensures
      var step := Next(src, s, call);
      && Accounted(src, step.state, delivered + RowsIn(step.reply), lost + LostIn(step.reply))
      && (step.reply.Batch? && step.reply.done ==> step.state.phase == Finished)
  {
    hide RunStep, Accounted;
    assert delivered + [] == delivered;
    if s.phase == Ready {
      DyingAccounts(src, s, delivered, lost);
      RunStepAccounts(src, s, call, delivered, lost);
    }
  }

  lemma DyingAccounts(src: Source, s: State, delivered: seq<Row>, lost: nat)
    requires Accounted(src, s, delivered, lost)
    ensures Accounted(src, s.(phase := Dead), delivered, lost)
  {
  }

  lemma RunStepAccounts(src: Source, s: State, call: Call, delivered: seq<Row>, lost: nat)
    requires Accounted(src, s, delivered, lost) && s.phase == Ready
    ensures
      var step := RunStep(src, s, call);
      && Accounted(src, step.state, delivered + RowsIn(step.reply), lost + LostIn(step.reply))
      && (step.reply.Batch? && step.reply.done ==> step.state.phase == Finished)
  {
    AimingAccounts(src, s, delivered, lost);
    hide FillStep, Aimed;
    assert delivered + [] == delivered;
    var t := Aimed(src, s);
    if t.goal.Some? {
      FillAccounts(src, t, call, delivered, lost);
      FillStepDone(src, t, call);
    }
  }

  lemma AimingAccounts(src: Source, s: State, delivered: seq<Row>, lost: nat)
    requires Accounted(src, s, delivered, lost) && s.phase == Ready
    ensures Accounted(src, Aimed(src, s), delivered, lost)
  {
    hide RowSlots, Locate, Sound;
  }

  lemma FillStepDone(src: Source, s: State, call: Call)
    requires Coherent(s) && s.goal.Some?
    ensures
      var step := FillStep(src, s, call);
      step.reply.Batch? && step.reply.done ==> step.state.phase == Finished
  {
  }

  // ---- Runs

  /** The state after some calls, the rows of their batches in order, and the rows lost on the way. */
  datatype Run = Run(state: State, delivered: seq<Row>, lost: nat)

  ghost function Play(src: Source, calls: seq<Call>): (r: Run)
    ensures Coherent(r.state)
    decreases |calls|
  {
    if calls == [] then Run(START, [], 0)
    else
      var before := Play(src, calls[..|calls| - 1]);
      var call := calls[|calls| - 1];
      NextIsCoherent(src, before.state, call);
      var step := Next(src, before.state, call);
      Run(step.state, before.delivered + RowsIn(step.reply), before.lost + LostIn(step.reply))
  }

  lemma NextIsCoherent(src: Source, s: State, call: Call)
    requires Coherent(s)
    ensures Coherent(Next(src, s, call).state)
  {
    hide Fill, Search;
  }

  /** Every run keeps the account. */
  lemma {:induction false} PlayAccounts(src: Source, calls: seq<Call>)
    ensures
      var r := Play(src, calls);
      Accounted(src, r.state, r.delivered, r.lost)
    decreases |calls|
  {
    hide Next, Accounted;
    if calls == [] {
      StartAccounts(src);
    } else {
      var before := Play(src, calls[..|calls| - 1]);
      PlayAccounts(src, calls[..|calls| - 1]);
      StepAccounts(src, before.state, calls[|calls| - 1], before.delivered, before.lost);
    }
  }

  lemma StartAccounts(src: Source)
    ensures Accounted(src, START, [], 0)
  {
  }

  ghost predicate Polite(call: Call) {
    forall k: nat :: call.answer(k) <= 1
  }

  ghost predicate AllPolite(calls: seq<Call>) {
    forall k :: 0 <= k < |calls| ==> Polite(calls[k])
  }

  // A batch is only interrupted by an answer that the probe gave.
  lemma {:induction false} InterruptedByProbe(src: Source, goal: Goal, limits: Limits, position: nat,
                                              taken: seq<Row>, answer: nat -> nat, c: nat)
    requires goal.Valid() && position <= |goal.rows| && |taken| <= limits.rowCapacity
    ensures
      var f := Fill(src, goal, limits, position, taken, answer, c);
      f.end.Interrupted? ==> exists k: nat :: answer(k) == f.end.answer
    decreases |goal.rows| - position
  {
    hide RowSlots, Complete;
    if |taken| < limits.rowCapacity && position < |goal.rows| && RowSlots(goal.rows[position], src.paths).Some? {
      var slots := RowSlots(goal.rows[position], src.paths).value;
      var appended := AppendRow(taken, slots, limits, answer, c + 1);
      if appended.0 == Appended {
        InterruptedByProbe(src, goal, limits, position + 1, taken + [Row(position, slots)], answer, appended.1);
      }
    }
  }

  lemma PoliteLosesNothing(src: Source, s: State, call: Call)
    requires Coherent(s) && Polite(call)
    ensures LostIn(Next(src, s, call).reply) == 0
  {
    hide RowSlots, Complete, Fill, Locate, Search;
    var t := Aimed(src, s);
    if t.goal.Some? {
      InterruptedByProbe(src, t.goal.value, call.limits, t.position, [], call.answer, call.first + 1);
    }
  }

  lemma {:induction false} PoliteRunsLoseNothing(src: Source, calls: seq<Call>)
    requires AllPolite(calls)
    ensures Play(src, calls).lost == 0
    decreases |calls|
  {
    if calls != [] {
      var init := calls[..|calls| - 1];
      PoliteRunsLoseNothing(src, init);
      assert Polite(calls[|calls| - 1]);
      PoliteLosesNothing(src, Play(src, init).state, calls[|calls| - 1]);
    }
  }

  /** The call has to search a root that an earlier search already started: it follows a reply that the
    * target is missing, and the root did open. */
  ghost predicate SearchesAgain(s: State, call: Call) {
    s.phase == Ready && s.started && s.goal.None? && call.answer(call.first) == 0
  }

  ghost predicate NeverSearchesAgain(src: Source, calls: seq<Call>) {
    forall i :: 0 <= i < |calls| ==> !SearchesAgain(Play(src, calls[..i]).state, calls[i])
  }

  /** The reply of call number `i` of a run. */
  ghost function ReplyOf(src: Source, calls: seq<Call>, i: nat): Reply
    requires i < |calls|
  {
    Next(src, Play(src, calls[..i]).state, calls[i]).reply
  }

  ghost predicate MissedBefore(src: Source, calls: seq<Call>) {
    exists i :: 0 <= i < |calls| && Missed(ReplyOf(src, calls, i))
  }

  predicate Missed(reply: Reply) {
    reply.Denied? && reply.why.TargetMissing?
  }

  lemma PlayExtends(src: Source, calls: seq<Call>, call: Call)
    ensures Play(src, calls + [call]).state == Next(src, Play(src, calls).state, call).state
    ensures Play(src, calls + [call]).lost ==
              Play(src, calls).lost + LostIn(Next(src, Play(src, calls).state, call).reply)
    ensures MissedBefore(src, calls + [call]) <==>
              MissedBefore(src, calls) || Missed(Next(src, Play(src, calls).state, call).reply)
  {
    var more := calls + [call];
    hide Next;
    assert more[..|calls|] == calls;
    assert ReplyOf(src, more, |calls|) == Next(src, Play(src, calls).state, call).reply;
    forall i | 0 <= i < |calls| ensures ReplyOf(src, more, i) == ReplyOf(src, calls, i) {
      assert more[..i] == calls[..i];
    }
  }

  lemma NextMisses(src: Source, s: State, call: Call)
    requires Coherent(s)
    ensures
      var step := Next(src, s, call);
      step.state.goal.None? ==>
        s.goal.None? && (step.state.started <==> s.started || (Missed(step.reply) && RootOpens(src.document, src.path)))
  {
    hide Fill, Locate;
  }

  lemma PlayNothing(src: Source)
    ensures Play(src, []) == Run(START, [], 0) && !MissedBefore(src, []) && NeverSearchesAgain(src, [])
  {
  }

  /** Whether a call would search again is plain from the earlier replies. */
  lemma {:induction false} StartedIffMissed(src: Source, calls: seq<Call>)
    ensures
      var s := Play(src, calls).state;
      s.goal.None? ==> (s.started <==> MissedBefore(src, calls) && RootOpens(src.document, src.path))
    decreases |calls|
  {
    hide Play, Next, MissedBefore;
    if calls == [] {
      PlayNothing(src);
    } else {
      var init, call := calls[..|calls| - 1], calls[|calls| - 1];
      assert calls == init + [call];
      StartedIffMissed(src, init);
      PlayExtends(src, init, call);
      NextMisses(src, Play(src, init).state, call);
    }
  }

  lemma OneStepRetries(src: Source, s: State, call: Call)
    requires Coherent(s)
    ensures Next(src, s, call).state.retried <==> s.retried || SearchesAgain(s, call)
  {
    hide Fill, Locate;
  }

  lemma {:induction false} NeverAgainIsNotRetried(src: Source, calls: seq<Call>)
    ensures Play(src, calls).state.retried <==> !NeverSearchesAgain(src, calls)
    decreases |calls|
  {
    hide Play, Next, NeverSearchesAgain;
    if calls == [] {
      PlayNothing(src);
    } else {
      var init, call := calls[..|calls| - 1], calls[|calls| - 1];
      assert calls == init + [call];
      NeverAgainIsNotRetried(src, init);
      OneStepRetries(src, Play(src, init).state, call);
      NeverAgainExtends(src, init, call);
      PlayExtends(src, init, call);
    }
  }

  lemma NeverAgainExtends(src: Source, calls: seq<Call>, call: Call)
    ensures NeverSearchesAgain(src, calls + [call]) <==>
              NeverSearchesAgain(src, calls) && !SearchesAgain(Play(src, calls).state, call)
  {
    hide Play;
    var more := calls + [call];
    assert more[..|calls|] == calls && more[|calls|] == call;
    forall i | 0 <= i < |calls|
      ensures SearchesAgain(Play(src, more[..i]).state, more[i]) <==> SearchesAgain(Play(src, calls[..i]).state, calls[i])
    {
      assert more[..i] == calls[..i];
    }
  }

  /** Over any sequence of calls with a 0/1 probe, whatever fails or is cancelled, the batches handed
    * over are together the first rows of one array, in order, numbered 0, 1, 2 and so on; once the stream
    * is done they are the whole of it. */
  lemma RunsDeliverOneArray(src: Source, calls: seq<Call>)
    requires AllPolite(calls)
    ensures
      var r := Play(src, calls);
      && Projected(r.delivered, RowsOf(r.state), src.paths, 0, |r.delivered|)
      && (r.state.phase == Finished ==> r.state.goal.Some? && |r.delivered| == |RowsOf(r.state)| && src.closes)
  {
    PoliteRunsLoseNothing(src, calls);
    PlayAccounts(src, calls);
    hide Play;
  }

  /** If no call searches a started root again, that array is the one the path leads to, and a finished
    * stream has found the whole source sound. */
  lemma RunsDeliverAPrefix(src: Source, calls: seq<Call>)
    requires AllPolite(calls) && NeverSearchesAgain(src, calls)
    ensures
      var r := Play(src, calls);
      && (r.state.goal.Some? ==> NodeAt(src.document, src.path) == Some(Array(RowsOf(r.state))))
      && Projected(r.delivered, RowsOf(r.state), src.paths, 0, |r.delivered|)
      && (r.state.phase == Finished ==>
            && r.state.goal.Some? && |r.delivered| == |RowsOf(r.state)|
            && Sound(src.document) && src.closes)
  {
    hide Play;
    PlayAccounts(src, calls);
    RunsDeliverOneArray(src, calls);
    NeverAgainIsNotRetried(src, calls);
    LocateIsLookup(src.document, src.path, []);
  }

  /** What a reply tells about the cursor: a batch is `done` exactly when the stream is finished and
    * leaves it ready otherwise, and a refusal ends it unless the caller may simply call again. */
  lemma ReplyTellsPhase(src: Source, s: State, call: Call)
    requires Coherent(s)
    ensures
      var step := Next(src, s, call);
      match step.reply
      case Batch(_, done) => step.state.phase == if done then Finished else Ready
      case Denied(CancelledFirst) => step.state.phase == if s.phase == Ready then Dead else s.phase
      case Denied(BrokenOff(f)) => step.state.phase == if f.end.Interrupted? && f.end.answer != 1 then Ready else Dead
      case Denied(_) => step.state.phase == s.phase
  {
    hide Fill, Search;
  }

  /** Before any row is taken, a call is denied by its first check, by a cursor that is not at rest, for
    * want of a target, and for storage too small for every row it may take; in this order. */
  lemma DeniedAtTheDoor(src: Source, s: State, call: Call)
    requires Coherent(s)
    ensures
      var reply, first := Next(src, s, call).reply, call.answer(call.first);
      var enters := first == 0 && s.phase == Ready;
      && (reply == Denied(BadProbe) <==> first > 1)
      && (reply == Denied(CancelledFirst) <==> first == 1)
      && (forall phase :: reply == Denied(WrongPhase(phase)) <==>
            first == 0 && s.phase == phase && (phase == Running || phase == Dead))
      && (forall code :: reply == Denied(TargetMissing(code)) <==>
            enters && s.goal.None? && Search(src, s) == NoTarget(code))
      && (reply == Denied(TooFewSlots) <==>
            enters && (s.goal.Some? || Search(src, s).Target?)
            && (|src.paths| == 0 || call.limits.rowCapacity * |src.paths| > call.limits.slotCapacity))
  {
    hide Fill, Search;
  }

  /** In every call of every run, a batch is `done` if and only if the stream is finished after it. */
  lemma DoneIffFinished(src: Source, calls: seq<Call>)
    requires calls != []
    ensures
      var last := ReplyOf(src, calls, |calls| - 1);
      last.Batch? ==> (last.done <==> Play(src, calls).state.phase == Finished)
  {
    hide Next;
    ReplyTellsPhase(src, Play(src, calls[..|calls| - 1]).state, calls[|calls| - 1]);
  }

  /** A finished stream goes on answering `done`, with no rows, to whoever does not cancel. */
  lemma FinishedStaysDone(src: Source, s: State, call: Call)
    requires Coherent(s) && s.phase == Finished && call.answer(call.first) == 0
    ensures Next(src, s, call) == Step(s, Batch([], true))
  {
  }

  /** What a delivered row says is what stands at each path in the array element it is numbered after. */
  lemma DeliveredRowsMean(src: Source, calls: seq<Call>, k: nat, slot: nat)
    requires k < |Play(src, calls).delivered| && slot < |src.paths|
    ensures
      var r := Play(src, calls);
      var row := r.delivered[k];
      && row.index < |RowsOf(r.state)| && |row.slots| == |src.paths|
      && Means(RowsOf(r.state)[row.index], src.paths[slot], row.slots[slot])
  {
    hide Play;
    PlayAccounts(src, calls);
    var r := Play(src, calls);
    RowSlotsMean(RowsOf(r.state)[r.delivered[k].index], src.paths, slot);
  }

  lemma RowSlotsMean(v: Value, paths: seq<Path>, slot: nat)
    requires RowSlots(v, paths).Some? && slot < |paths|
    ensures Means(v, paths[slot], RowSlots(v, paths).value[slot])
  {
    FoundMeans(v, paths[slot]);
  }

  /** Whatever the probe answers, no row is repeated or out of order; and while the cursor can go on or
    * is done, the rows are gapless if and only if no call was interrupted by a bad answer after it had
    * taken rows. */
  lemma GaplessIffNothingLost(src: Source, calls: seq<Call>)
    ensures
      var r := Play(src, calls);
      && InOrder(r.delivered, RowsOf(r.state), src.paths, r.state.position)
      && (r.state.phase == Ready || r.state.phase == Finished ==>
            (Projected(r.delivered, RowsOf(r.state), src.paths, 0, r.state.position) <==> r.lost == 0))
      && (r.lost == 0 ==> Projected(r.delivered, RowsOf(r.state), src.paths, 0, |r.delivered|))
  {
    hide Play;
    PlayAccounts(src, calls);
  }

  // ---- A probe that answers 2 in the middle of a batch

  const TWO_ROWS := Array([Array([Null]), Array([Null])])

  const TWO_ROWS_SOURCE := Source(TWO_ROWS, true, (_: nat) => NoTarget(InvalidJson), [], [[Index(0)]])

  const SMALL := Limits(2, 2, 0, 1000)

  ghost predicate AnswersTwoAtFourth(answer: nat -> nat) {
    answer(0) == answer(1) == answer(2) == answer(3) == 0 && answer(4) == 2
  }

  /** The interrupted call has taken row 0 and leaves the cursor ready for row 1: row 0 is lost. */
  lemma BadAnswerLosesARow(answer: nat -> nat)
    requires AnswersTwoAtFourth(answer)
    ensures
      var step := Next(TWO_ROWS_SOURCE, START, Call(SMALL, answer, 0));
      && step.state.phase == Ready && step.state.position == 1
      && RowsIn(step.reply) == [] && LostIn(step.reply) == 1
  {
    var src := TWO_ROWS_SOURCE;
    var row := Array([Null]);
    var goal := Goal([row, row], []);
    assert Locate(src.document, [], []) == Target([row, row], []);
    NullRowProjects();
    var slots := [NullSlot];
    var taken := [Row(0, slots)];
    assert [Row(0, slots)][..0] == [] && slots[..0] == [];
    assert FirstStop(answer, 3, 1) == None;
    assert AppendRow([], slots, SMALL, answer, 2) == (Appended, 4);
    assert Fill(src, goal, SMALL, 1, taken, answer, 4) == Filling(taken, 1, Interrupted(2), 5);
    assert [] + taken == taken;
    assert Fill(src, goal, SMALL, 0, [], answer, 1) == Filling(taken, 1, Interrupted(2), 5);
  }

  lemma NullRowProjects()
    ensures RowSlots(Array([Null]), [[Index(0)]]) == Some([NullSlot])
  {
    var row := Array([Null]);
    var paths: seq<Path> := [[Index(0)]];
    assert paths[0][1..] == [];
    assert Lookup(row, paths[0]) == Found(NullSlot);
    assert [Null][1..] == [];
    assert HardFailure(row, 1).None?;
    assert RowSlots(row, paths).value == [NullSlot];
  }

  // ---- Draining

  ghost predicate RowFits(slots: seq<Slot>, limits: Limits) {
    Fits([], slots, limits) && RowSize(slots) <= UINT64_MAX
  }

  /** A call that no row of `rows` on its own can defeat. */
  ghost predicate Ample(src: Source, call: Call, rows: seq<Value>) {
    && (forall k: nat :: call.answer(k) == 0)
    && 0 < call.limits.rowCapacity && SlotsSuffice(call.limits, |src.paths|)
    && forall i :: 0 <= i < |rows| ==>
         RowSlots(rows[i], src.paths).Some? && RowFits(RowSlots(rows[i], src.paths).value, call.limits)
  }

  ghost predicate Streamable(src: Source, rows: seq<Value>) {
    HardFailure(src.document, 1).None? && src.closes && NodeAt(src.document, src.path) == Some(Array(rows))
  }

  /** In a good document, an ample call delivers at least one row or finishes the stream. */
  lemma AmpleFillProgresses(src: Source, s: State, call: Call, rows: seq<Value>)
    requires Coherent(s) && OnTarget(src, s) && s.phase == Ready && !s.retried
    requires s.goal.Some? && s.goal.value.rows == rows
    requires Streamable(src, rows) && Ample(src, call, rows)
    ensures
      var step := FillStep(src, s, call);
      && step.reply.Batch?
      && (step.state.phase == Finished || (step.state.phase == Ready && step.state.position > s.position))
  {
    AmpleFillEnds(src, s, call, rows);
    FilledTakes(src, s, call);
    AmpleSuffices(src, call, rows);
    hide *;
    SettledBatch(src, s, call);
  }

  lemma AmpleSuffices(src: Source, call: Call, rows: seq<Value>)
    requires Ample(src, call, rows)
    ensures SlotsSuffice(call.limits, |src.paths|)
  {
  }

  lemma SettledBatch(src: Source, s: State, call: Call)
    requires s.goal.Some? && s.goal.value.Valid() && s.position <= |s.goal.value.rows|
    requires SlotsSuffice(call.limits, |src.paths|)
    ensures
      var f := FillingOf(src, s, call);
      var step := FillStep(src, s, call);
      f.end == Full || f.end == Overflow || f.end == Drained ==>
        && step.reply.Batch? && step.state.position == f.position
        && step.state.phase == if f.end == Drained then Finished else Ready
  {
    hide Fill;
  }

  lemma AmpleFillEnds(src: Source, s: State, call: Call, rows: seq<Value>)
    requires Coherent(s) && OnTarget(src, s) && s.goal.Some? && s.goal.value.rows == rows && !s.retried
    requires Streamable(src, rows) && Ample(src, call, rows)
    ensures
      var f := FillingOf(src, s, call);
      && (f.end == Full || f.end == Overflow || f.end == Drained)
      && (f.end != Drained ==> f.taken != [])
  {
    hide Fill, RowSlots, Complete, Fits, Locate, EndsWell;
    var goal := s.goal.value;
    var f := FillingOf(src, s, call);
    FilledTakes(src, s, call);
    QuietBatchEnds(src, goal, call.limits, s.position, [], call.answer, call.first + 1);
    CompletionSucceeds(src, goal, call.answer);
    hide *;
    AmpleEnd(src, goal, call, f);
  }

  lemma AmpleEnd(src: Source, goal: Goal, call: Call, f: Filling)
    requires goal.Valid() && EndsWell(src, goal, call.limits, call.answer, f) && Ample(src, call, goal.rows)
    requires f.end == Full || f.end == Overflow || f.end == Drained || f.end == RowUnfit(RowTooLarge)
             || f.end == RowUnfit(SizeOverflow) || f.end.Unfinished?
    requires forall completion :: CompletesWith(src, goal, call.answer, completion) ==> completion == Completed
    ensures f.end == Full || f.end == Overflow || f.end == Drained
    ensures f.end != Drained ==> f.taken != []
  {
    hide RowSlots, Fits;
  }

  lemma CompletionSucceeds(src: Source, goal: Goal, answer: nat -> nat)
    requires goal.Valid() && Locate(src.document, src.path, []) == Target(goal.rows, goal.frames)
    requires Streamable(src, goal.rows) && forall k: nat :: answer(k) == 0
    ensures forall completion :: CompletesWith(src, goal, answer, completion) ==> completion == Completed
  {
    forall k: nat ensures Complete(goal.frames, src.closes, answer, k).0 == Completed {
      GoodDocumentCompletes(src.document, src.path, answer, k);
    }
  }

  lemma AmpleStepProgresses(src: Source, s: State, call: Call, rows: seq<Value>)
    requires Coherent(s) && OnTarget(src, s) && s.phase == Ready && (s.goal.Some? ==> s.goal.value.rows == rows)
    requires (s.goal.None? ==> !s.started) && !s.retried
    requires Streamable(src, rows) && Ample(src, call, rows)
    ensures
      var step := Next(src, s, call);
      && step.reply.Batch? && step.state.goal.Some? && step.state.goal.value.rows == rows && !step.state.retried
      && (step.state.phase == Finished || (step.state.phase == Ready && step.state.position > s.position))
  {
    if s.goal.None? {
      GoodDocumentCompletes(src.document, src.path, call.answer, 0);
    }
    AmpleFillProgresses(src, Aimed(src, s), call, rows);
  }

  ghost predicate AllAmple(src: Source, calls: seq<Call>, rows: seq<Value>) {
    forall k :: 0 <= k < |calls| ==> Ample(src, calls[k], rows)
  }

  lemma {:induction false} DrainProgresses(src: Source, calls: seq<Call>, rows: seq<Value>)
    requires Streamable(src, rows) && AllAmple(src, calls, rows)
    ensures
      var s := Play(src, calls).state;
      && (calls != [] ==> s.goal.Some?) && (s.goal.Some? ==> s.goal.value.rows == rows)
      && (s.goal.None? ==> !s.started) && !s.retried
      && ((s.phase == Finished && s.goal.Some?) || (s.phase == Ready && s.position >= |calls|))
    decreases |calls|
  {
    hide Next, Ample, Streamable, OnTarget, Play;
    if calls == [] {
      PlayNothing(src);
    } else {
      var init, call := calls[..|calls| - 1], calls[|calls| - 1];
      assert calls == init + [call];
      DrainProgresses(src, init, rows);
      RunsStayOnTarget(src, init);
      DrainStep(src, Play(src, init).state, call, rows);
      PlayExtends(src, init, call);
    }
  }

  lemma RunsStayOnTarget(src: Source, calls: seq<Call>)
    ensures OnTarget(src, Play(src, calls).state)
  {
    PlayAccounts(src, calls);
    hide Play;
  }

  lemma DrainStep(src: Source, s: State, call: Call, rows: seq<Value>)
    requires Coherent(s) && OnTarget(src, s) && !s.retried && (s.goal.None? ==> !s.started)
    requires s.goal.Some? ==> s.goal.value.rows == rows
    requires Streamable(src, rows) && Ample(src, call, rows)
    requires (s.phase == Finished && s.goal.Some?) || s.phase == Ready
    ensures
      var t := Next(src, s, call).state;
      && t.goal.Some? && t.goal.value.rows == rows && !t.retried
      && (t.phase == Finished || (s.phase == t.phase == Ready && t.position > s.position))
      && Next(src, s, call).reply.Batch?
  {
    AmpleIsQuiet(src, call, rows);
    if s.phase == Ready {
      AmpleStepProgresses(src, s, call, rows);
    }
    hide RunStep, Streamable;
  }

  lemma AmpleIsQuiet(src: Source, call: Call, rows: seq<Value>)
    requires Ample(src, call, rows)
    ensures forall k: nat :: call.answer(k) == 0
  {
  }

  /** Draining terminates: with ample calls a good source is finished after at most one call more than
    * it has rows, every row was delivered exactly once and in order, and the last reply is `done`. */
  lemma DrainingFinishes(src: Source, calls: seq<Call>, rows: seq<Value>)
    requires Streamable(src, rows) && AllAmple(src, calls, rows) && |calls| > |rows|
    ensures
      var r := Play(src, calls);
      && r.state.phase == Finished && Projected(r.delivered, rows, src.paths, 0, |rows|)
      && ReplyOf(src, calls, |calls| - 1).Batch? && ReplyOf(src, calls, |calls| - 1).done
  {
    DrainProgresses(src, calls, rows);
    NeverAgainIsNotRetried(src, calls);
    LastAmpleReply(src, calls, rows);
    DoneIffFinished(src, calls);
    hide Play, Streamable, Next;
    forall k | 0 <= k < |calls| ensures Polite(calls[k]) {
      assert Ample(src, calls[k], rows);
    }
    RunsDeliverAPrefix(src, calls);
  }

  lemma LastAmpleReply(src: Source, calls: seq<Call>, rows: seq<Value>)
    requires Streamable(src, rows) && AllAmple(src, calls, rows) && calls != []
    ensures ReplyOf(src, calls, |calls| - 1).Batch?
  {
    hide Next, Streamable, Ample, OnTarget;
    var init := calls[..|calls| - 1];
    DrainProgresses(src, init, rows);
    RunsStayOnTarget(src, init);
    DrainStep(src, Play(src, init).state, calls[|calls| - 1], rows);
  }
}
