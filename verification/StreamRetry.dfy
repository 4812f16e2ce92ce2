/** Searching again after the target was missed: when a run can be trusted to stream the right array. */
module StreamRetry {
  import opened Json
  import opened Validation
  import opened ProjectionSpec
  import opened StreamTarget
  import opened StreamZipper
  import opened StreamBatch
  import opened StreamSpec
  import opened StreamRuns

  /** If the run has found an array at all, it is the one that the path leads to. */
  ghost predicate StreamsTheTarget(src: Source, calls: seq<Call>) {
    var s := Play(src, calls).state;
    s.goal.Some? ==> NodeAt(src.document, src.path) == Some(Array(RowsOf(s)))
  }

  ghost predicate SafeWith(src: Source, calls: seq<Call>, again: nat -> Answer) {
    StreamsTheTarget(src.(again := again), calls)
  }

  // ---- Until a call searches again, the parser's later answers do not matter

  lemma FirstSearchIgnoresAgain(src: Source, again: nat -> Answer, s: State, call: Call)
    requires Coherent(s) && !SearchesAgain(s, call)
    ensures Next(src.(again := again), s, call) == Next(src, s, call)
  {
    hide Fill, Locate;
    var other := src.(again := again);
    if s.phase == Ready && call.answer(call.first) == 0 {
      assert s.goal.None? ==> Search(other, s) == Search(src, s);
      assert Aimed(other, s) == Aimed(src, s);
      if Aimed(src, s).goal.Some? {
        var t := Aimed(src, s);
        FillIgnoresAgain(src, again, t.goal.value, call.limits, t.position, [], call.answer, call.first + 1);
      }
    }
  }

  lemma {:induction false} FillIgnoresAgain(src: Source, again: nat -> Answer, goal: Goal, limits: Limits,
                                            position: nat, taken: seq<Row>, answer: nat -> nat, c: nat)
    requires goal.Valid() && position <= |goal.rows| && |taken| <= limits.rowCapacity
    ensures Fill(src.(again := again), goal, limits, position, taken, answer, c) ==
            Fill(src, goal, limits, position, taken, answer, c)
    decreases |goal.rows| - position
  {
    hide RowSlots, Complete;
    if |taken| < limits.rowCapacity && position < |goal.rows| && RowSlots(goal.rows[position], src.paths).Some? {
      var slots := RowSlots(goal.rows[position], src.paths).value;
      var appended := AppendRow(taken, slots, limits, answer, c + 1);
      if appended.0 == Appended {
        FillIgnoresAgain(src, again, goal, limits, position + 1, taken + [Row(position, slots)], answer, appended.1);
      }
    }
  }

  lemma {:induction false} PlayIgnoresAgain(src: Source, again: nat -> Answer, calls: seq<Call>)
    requires NeverSearchesAgain(src, calls)
    ensures Play(src.(again := again), calls) == Play(src, calls)
    ensures NeverSearchesAgain(src.(again := again), calls)
    decreases |calls|
  {
    hide Next, NeverSearchesAgain;
    var other := src.(again := again);
    if calls == [] {
      PlayNothing(other);
    } else {
      var init, call := calls[..|calls| - 1], calls[|calls| - 1];
      assert calls == init + [call];
      NeverAgainExtends(src, init, call);
      NeverAgainExtends(other, init, call);
      PlayIgnoresAgain(src, again, init);
      FirstSearchIgnoresAgain(src, again, Play(src, init).state, call);
    }
  }

  // ---- Once a call searches again, they decide

  /** An array that the path does not lead to. */
  ghost function WrongRows(v: Value, path: Path): (rows: seq<Value>)
    ensures NodeAt(v, path) != Some(Array(rows))
  {
    if NodeAt(v, path) == Some(Array([])) then [Null] else []
  }

  lemma SearchingAgainDecides(src: Source, s: State, call: Call, rows: seq<Value>)
    requires Coherent(s) && SearchesAgain(s, call)
    requires src.again(s.searches) == Target(rows, [])
    ensures
      var goal := Next(src, s, call).state.goal;
      goal.Some? && goal.value.rows == rows
  {
    hide Fill;
  }

  lemma GoalStays(src: Source, s: State, call: Call)
    requires Coherent(s) && s.goal.Some?
    ensures Next(src, s, call).state.goal == s.goal
  {
    hide Fill;
  }

  lemma {:induction false} GoalStaysAll(src: Source, calls: seq<Call>, n: nat)
    requires n <= |calls| && Play(src, calls[..n]).state.goal.Some?
    ensures Play(src, calls).state.goal == Play(src, calls[..n]).state.goal
    decreases |calls|
  {
    hide Next;
    if n == |calls| {
      assert calls[..n] == calls;
    } else {
      var init, call := calls[..|calls| - 1], calls[|calls| - 1];
      assert init[..n] == calls[..n];
      GoalStaysAll(src, init, n);
      GoalStays(src, Play(src, init).state, call);
    }
  }

  /** The first call of a run that searches again. */
  lemma {:induction false} FirstSearchAgain(src: Source, calls: seq<Call>) returns (n: nat)
    requires !NeverSearchesAgain(src, calls)
    ensures n < |calls| && NeverSearchesAgain(src, calls[..n])
    ensures SearchesAgain(Play(src, calls[..n]).state, calls[n])
    decreases |calls|
  {
    hide Next, NeverSearchesAgain;
    if calls == [] {
      PlayNothing(src);
      assert false;
    } else {
      var init, call := calls[..|calls| - 1], calls[|calls| - 1];
      assert calls == init + [call];
      NeverAgainExtends(src, init, call);
      if NeverSearchesAgain(src, init) {
        n := |init|;
      } else {
        n := FirstSearchAgain(src, init);
        assert init[..n] == calls[..n];
      }
    }
  }

  /** A parser that answers every repeated search with such an array. */
  ghost function WrongAgain(src: Source): nat -> Answer {
    (_: nat) => Target(WrongRows(src.document, src.path), [])
  }

  lemma WrongAnswerIsStreamed(src: Source, calls: seq<Call>)
    requires !NeverSearchesAgain(src, calls)
    ensures !SafeWith(src, calls, WrongAgain(src))
  {
    hide Next, NeverSearchesAgain, Play, SearchesAgain, WrongAgain, WrongRows;
    var n := FirstSearchAgain(src, calls);
    PlayIgnoresAgain(src, WrongAgain(src), calls[..n]);
    WrongAnswerStays(src, calls, n);
  }

  lemma WrongAnswerStays(src: Source, calls: seq<Call>, n: nat)
    requires n < |calls|
    requires SearchesAgain(Play(src.(again := WrongAgain(src)), calls[..n]).state, calls[n])
    ensures !SafeWith(src, calls, WrongAgain(src))
  {
    hide Next, WrongAgain, Play, WrongRows, SearchesAgain;
    var other := src.(again := WrongAgain(src));
    var s := Play(other, calls[..n]).state;
    WrongAnswerFound(src, s, calls[n]);
    PlayExtends(other, calls[..n], calls[n]);
    assert calls[..n + 1] == calls[..n] + [calls[n]];
    WrongGoalStays(other, calls, n + 1);
  }

  lemma WrongGoalStays(src: Source, calls: seq<Call>, n: nat)
    requires n <= |calls| && Play(src, calls[..n]).state.goal.Some?
    requires Play(src, calls[..n]).state.goal.value.rows == WrongRows(src.document, src.path)
    ensures !StreamsTheTarget(src, calls)
  {
    hide Next, Play;
    GoalStaysAll(src, calls, n);
  }

  lemma WrongAnswerFound(src: Source, s: State, call: Call)
    requires
      var other := src.(again := WrongAgain(src));
      Coherent(s) && SearchesAgain(s, call)
    ensures
      var goal := Next(src.(again := WrongAgain(src)), s, call).state.goal;
      goal.Some? && goal.value.rows == WrongRows(src.document, src.path)
  {
    SearchingAgainDecides(src.(again := WrongAgain(src)), s, call, WrongRows(src.document, src.path));
  }

  /** A run streams the right array whatever the parser makes of a started root if and only if none of
    * its calls searches again, that is, if nobody goes on after a miss in a root that did open. */
  lemma SafeIffNeverSearchesAgain(src: Source, calls: seq<Call>)
    ensures (forall again: nat -> Answer :: SafeWith(src, calls, again)) <==> NeverSearchesAgain(src, calls)
  {
    hide Play, NeverSearchesAgain;
    if NeverSearchesAgain(src, calls) {
      forall again: nat -> Answer ensures SafeWith(src, calls, again) {
        PlayIgnoresAgain(src, again, calls);
        NeverAgainIsNotRetried(src.(again := again), calls);
        RunsStayOnTarget(src.(again := again), calls);
        LocateIsLookup(src.document, src.path, []);
      }
    } else {
      WrongAnswerIsStreamed(src, calls);
    }
  }

  // ---- A miss, and then another array

  const ROWS := [Array([Null]), Array([Null])]

  /** The path leads to a number; the array of rows comes right after it. */
  const MISSED := Array([Number([0x30], Signed(0)), Number([0x35], Signed(5)), Array(ROWS)])

  /** After the miss the parser stands at the number. Asked for the root's elements again it counts from
    * there, so that the array has index 1 now, below the frame left over from the first search. */
  const COUNTS_FROM_THERE: nat -> Answer := (_: nat) => Target(ROWS, [Frame(MISSED, 1, 1), Frame(MISSED, 2, 2)])

  const MISSED_SOURCE := Source(MISSED, true, COUNTS_FROM_THERE, [Index(1)], [[Index(0)]])

  const QUIET: nat -> nat := (_: nat) => 0

  const FIRST_CALL := Call(Limits(1, 1, 0, 1000), QUIET, 0)

  const SECOND_CALL := Call(Limits(1, 1, 0, 1000), QUIET, 1)

  lemma FirstCallMisses()
    ensures
      var step := Next(MISSED_SOURCE, START, FIRST_CALL);
      && step.reply == Denied(TargetMissing(IncorrectType))
      && step.state == State(Ready, true, 1, false, None, 0)
  {
    var path: Path := [Index(1)];
    assert path[1..] == [];
    assert HardFailure(MISSED.elements[0], 1).None?;
    assert Choose(MISSED, Index(1), 1) == Chosen(1);
    assert Choose(MISSED, Index(1), 0) == Chosen(1);
    assert Locate(MISSED, path, []) == NoTarget(IncorrectType);
  }

  lemma SecondCallStreams()
    ensures
      var step := Next(MISSED_SOURCE, State(Ready, true, 1, false, None, 0), SECOND_CALL);
      && step.reply == Batch([Row(0, [NullSlot])], false)
      && step.state.goal.Some? && step.state.goal.value.rows == ROWS
  {
    NullRowProjects();
    var goal := Goal(ROWS, [Frame(MISSED, 1, 1), Frame(MISSED, 2, 2)]);
    var slots := [NullSlot];
    var taken := [Row(0, slots)];
    assert taken[..0] == [] && slots[..0] == [];
    assert FirstStop(QUIET, 4, 1) == None;
    assert AppendRow([], slots, SECOND_CALL.limits, QUIET, 3) == (Appended, 5);
    assert Fill(MISSED_SOURCE, goal, SECOND_CALL.limits, 1, taken, QUIET, 5) == Filling(taken, 1, Full, 5);
    assert [] + taken == taken;
    assert Fill(MISSED_SOURCE, goal, SECOND_CALL.limits, 0, [], QUIET, 2) == Filling(taken, 1, Full, 5);
  }

  /** Row 0 of an array that the path does not lead to is handed over as if it were the target's. */
  lemma RetryStreamsAnotherArray()
    ensures
      var calls := [FIRST_CALL, SECOND_CALL];
      && Play(MISSED_SOURCE, calls).delivered == [Row(0, [NullSlot])]
      && NodeAt(MISSED, [Index(1)]) == Some(Number([0x35], Signed(5)))
      && !StreamsTheTarget(MISSED_SOURCE, calls)
  {
    hide Next;
    var calls := [FIRST_CALL, SECOND_CALL];
    assert calls[..1] == [FIRST_CALL] && [FIRST_CALL][..0] == [];
    FirstCallMisses();
    SecondCallStreams();
    var path: Path := [Index(1)];
    assert path[1..] == [];
    assert Play(MISSED_SOURCE, [FIRST_CALL]).state == State(Ready, true, 1, false, None, 0);
  }
}
