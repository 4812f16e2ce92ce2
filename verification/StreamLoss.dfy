/** Exactly when a call takes rows that nobody receives, told from the probe, the limits and the rows. */
module StreamLoss {
  import opened Json
  import opened ProjectionSpec
  import opened StreamBatch
  import opened StreamSpec
  import opened StreamFill
  import opened StreamRuns

  // ---- The rows a batch would take

  ghost function SlotsOf(v: Value, paths: seq<Path>): seq<Slot> {
    if RowSlots(v, paths).Some? then RowSlots(v, paths).value else []
  }

  /** The projections of the `k` rows from row `p` on. */
  ghost function TakenRows(rows: seq<Value>, paths: seq<Path>, p: nat, k: nat): (r: seq<Row>)
    requires p + k <= |rows|
    ensures |r| == k
  {
    if k == 0 then []
    else TakenRows(rows, paths, p, k - 1) + [Row(p + k - 1, SlotsOf(rows[p + k - 1], paths))]
  }

  /** The `k` rows from row `p` on project and fit into one batch. */
  ghost predicate Takeable(src: Source, goal: Goal, limits: Limits, p: nat, k: nat) {
    && p + k <= |goal.rows|
    && (forall i :: p <= i < p + k ==> FitsAlone(goal.rows[i], src.paths))
    && WithinLimits(TakenRows(goal.rows, src.paths, p, k), limits)
  }

  ghost predicate FitsAlone(v: Value, paths: seq<Path>) {
    RowSlots(v, paths).Some? && RowSize(RowSlots(v, paths).value) <= UINT64_MAX
  }

  /** The number of the check at the top of the loop after `k` rows: each row takes one there, one
    * before it is appended and one a slot. */
  function CheckAt(first: nat, slotCount: nat, k: nat): nat {
    if k == 0 then first + 1 else CheckAt(first, slotCount, k - 1) + 2 + slotCount
  }

  lemma {:induction false} CheckAtIs(first: nat, slotCount: nat, k: nat)
    ensures CheckAt(first, slotCount, k) == first + 1 + k * (2 + slotCount)
  {
    if k > 0 {
      CheckAtIs(first, slotCount, k - 1);
    }
  }

  ghost predicate QuietBetween(answer: nat -> nat, lo: nat, hi: nat) {
    forall j :: lo <= j < hi ==> answer(j) == 0
  }

  /** The probe is quiet while `k` rows are taken and then gives an answer that is neither 0 nor 1. */
  ghost predicate BadAnswerAfter(src: Source, goal: Goal, limits: Limits, p: nat, answer: nat -> nat, first: nat,
                                 k: nat)
  {
    && k < limits.rowCapacity && Takeable(src, goal, limits, p, k)
    && QuietBetween(answer, first + 1, CheckAt(first, |src.paths|, k))
    && answer(CheckAt(first, |src.paths|, k)) > 1
  }

  lemma {:induction false} TakenPrefix(rows: seq<Value>, paths: seq<Path>, p: nat, i: nat, k: nat)
    requires p + k <= |rows| && i <= k
    ensures TakenRows(rows, paths, p, k)[..i] == TakenRows(rows, paths, p, i)
    decreases k
  {
    if i < k {
      TakenPrefix(rows, paths, p, i, k - 1);
    }
  }

  lemma {:induction false} ChecksGrow(first: nat, slotCount: nat, i: nat, k: nat)
    requires i <= k
    ensures first + 1 <= CheckAt(first, slotCount, i) <= CheckAt(first, slotCount, k)
    ensures i < k ==> CheckAt(first, slotCount, i) + 2 + slotCount <= CheckAt(first, slotCount, k)
    decreases k
  {
    if i < k {
      ChecksGrow(first, slotCount, i, k - 1);
    } else if k > 0 {
      ChecksGrow(first, slotCount, i - 1, k - 1);
    }
  }

  lemma OneMoreIsTakeable(src: Source, goal: Goal, limits: Limits, p: nat, i: nat)
    requires Takeable(src, goal, limits, p, i) && p + i < |goal.rows| && i < limits.rowCapacity
    requires RowSlots(goal.rows[p + i], src.paths).Some?
    ensures
      var slots := RowSlots(goal.rows[p + i], src.paths).value;
      var taken := TakenRows(goal.rows, src.paths, p, i);
      && TakenRows(goal.rows, src.paths, p, i + 1) == taken + [Row(p + i, slots)]
      && (Takeable(src, goal, limits, p, i + 1) <==> Fits(taken, slots, limits) && RowSize(slots) <= UINT64_MAX)
  {
    hide RowSlots, Encoded, Flat, TextOf;
    var taken := TakenRows(goal.rows, src.paths, p, i);
    var row := Row(p + i, RowSlots(goal.rows[p + i], src.paths).value);
    AppendStaysWithin(taken, row, limits);
    assert FitsAlone(goal.rows[p + i], src.paths) <==> RowSize(row.slots) <= UINT64_MAX;
  }

  lemma QuietIsNoStop(answer: nat -> nat, c: nat, n: nat)
    ensures answer(c + 1) == 0 && FirstStop(answer, c + 2, n).None? <==> QuietBetween(answer, c + 1, c + 2 + n)
  {
    assert FirstStop(answer, c + 2, n).None? <==> QuietBetween(answer, c + 2, c + 2 + n);
  }

  /** What one turn of a batch makes of a quiet check at its top: it takes the row and goes on exactly
    * when the row is takeable and its own checks are quiet. */
  lemma TurnTakesRow(src: Source, goal: Goal, limits: Limits, p: nat, i: nat, answer: nat -> nat, c: nat)
    requires goal.Valid() && Takeable(src, goal, limits, p, i) && p + i < |goal.rows| && i < limits.rowCapacity
    requires RowSlots(goal.rows[p + i], src.paths).Some? && answer(c) == 0
    ensures
      var f := Fill(src, goal, limits, p + i, TakenRows(goal.rows, src.paths, p, i), answer, c);
      if Takeable(src, goal, limits, p, i + 1) && QuietBetween(answer, c + 1, c + 2 + |src.paths|) then
        f == Fill(src, goal, limits, p + i + 1, TakenRows(goal.rows, src.paths, p, i + 1), answer, c + 2 + |src.paths|)
      else !f.end.Interrupted?
  {
    hide *;
    OneMoreIsTakeable(src, goal, limits, p, i);
    QuietIsNoStop(answer, c, |src.paths|);
    FillAppendsRow(src, goal, limits, p + i, TakenRows(goal.rows, src.paths, p, i), answer, c);
  }

  lemma FillAppendsRow(src: Source, goal: Goal, limits: Limits, position: nat, taken: seq<Row>, answer: nat -> nat,
                       c: nat)
    requires goal.Valid() && position < |goal.rows| && |taken| < limits.rowCapacity && answer(c) == 0
    requires RowSlots(goal.rows[position], src.paths).Some?
    ensures
      var slots := RowSlots(goal.rows[position], src.paths).value;
      var f := Fill(src, goal, limits, position, taken, answer, c);
      if Fits(taken, slots, limits) && RowSize(slots) <= UINT64_MAX
         && answer(c + 1) == 0 && FirstStop(answer, c + 2, |src.paths|).None?
      then f == Fill(src, goal, limits, position + 1, taken + [Row(position, slots)], answer, c + 2 + |src.paths|)
      else !f.end.Interrupted?
  {
    hide Fits, TextOf;
  }

  /** The top of a turn: a bad answer interrupts there, and so does nothing else that ends the batch. */
  lemma TurnBegins(src: Source, goal: Goal, limits: Limits, position: nat, taken: seq<Row>, answer: nat -> nat,
                   c: nat)
    requires goal.Valid() && position <= |goal.rows| && |taken| <= limits.rowCapacity
    ensures
      var f := Fill(src, goal, limits, position, taken, answer, c);
      if |taken| < limits.rowCapacity && answer(c) != 0 then
        f == Filling(taken, position, Interrupted(answer(c)), c + 1)
      else
        (|taken| == limits.rowCapacity || position == |goal.rows| || RowSlots(goal.rows[position], src.paths).None?)
        ==> !f.end.Interrupted?
  {
    hide RowSlots, AppendRow;
  }

  lemma LongerIsTakeable(src: Source, goal: Goal, limits: Limits, p: nat, i: nat, k: nat)
    requires Takeable(src, goal, limits, p, k) && i <= k
    ensures Takeable(src, goal, limits, p, i)
  {
    TakenPrefix(goal.rows, src.paths, p, i, k);
    EncodedGrows(TakenRows(goal.rows, src.paths, p, k), i);
  }

  lemma QuietExtends(answer: nat -> nat, lo: nat, c: nat, end: nat)
    requires QuietBetween(answer, lo, c) && answer(c) == 0 && QuietBetween(answer, c + 1, end)
    ensures QuietBetween(answer, lo, end)
  {
  }

  lemma NextCheck(first: nat, slotCount: nat, i: nat)
    ensures CheckAt(first, slotCount, i + 1) == CheckAt(first, slotCount, i) + 2 + slotCount
  {
  }

  /** A batch that is interrupted by a bad answer was quiet while it took its rows. */
  lemma {:induction false} InterruptedIsBadAnswer(src: Source, goal: Goal, limits: Limits, p: nat, i: nat,
                                                  answer: nat -> nat, first: nat)
    requires goal.Valid() && Takeable(src, goal, limits, p, i) && i <= limits.rowCapacity && p + i <= |goal.rows|
    requires QuietBetween(answer, first + 1, CheckAt(first, |src.paths|, i))
    ensures
      var f := Fill(src, goal, limits, p + i, TakenRows(goal.rows, src.paths, p, i), answer,
                    CheckAt(first, |src.paths|, i));
      f.end.Interrupted? && f.end.answer > 1 ==> BadAnswerAfter(src, goal, limits, p, answer, first, |f.taken|)
    decreases |goal.rows| - p - i
  {
    hide RowSlots, TakenRows, Fill, CheckAt, Takeable, QuietBetween;
    var c := CheckAt(first, |src.paths|, i);
    ChecksGrow(first, |src.paths|, i, i);
    TurnBegins(src, goal, limits, p + i, TakenRows(goal.rows, src.paths, p, i), answer, c);
    if i < limits.rowCapacity && answer(c) == 0 && p + i < |goal.rows|
       && RowSlots(goal.rows[p + i], src.paths).Some? {
      TurnTakesRow(src, goal, limits, p, i, answer, c);
      if Takeable(src, goal, limits, p, i + 1) && QuietBetween(answer, c + 1, c + 2 + |src.paths|) {
        QuietExtends(answer, first + 1, c, c + 2 + |src.paths|);
        NextCheck(first, |src.paths|, i);
        InterruptedIsBadAnswer(src, goal, limits, p, i + 1, answer, first);
      }
    }
  }

  /** And a quiet probe that then gives a bad answer interrupts it there. */
  lemma {:induction false} BadAnswerInterrupts(src: Source, goal: Goal, limits: Limits, p: nat, i: nat, k: nat,
                                               answer: nat -> nat, first: nat)
    requires goal.Valid() && i <= k && BadAnswerAfter(src, goal, limits, p, answer, first, k)
    requires p + i <= |goal.rows|
    ensures
      var f := Fill(src, goal, limits, p + i, TakenRows(goal.rows, src.paths, p, i), answer,
                    CheckAt(first, |src.paths|, i));
      f.end == Interrupted(answer(CheckAt(first, |src.paths|, k))) && |f.taken| == k
    decreases k - i
  {
    hide RowSlots, Fill, TakenRows, Takeable, CheckAt, QuietBetween;
    var c := CheckAt(first, |src.paths|, i);
    TurnBegins(src, goal, limits, p + i, TakenRows(goal.rows, src.paths, p, i), answer, c);
    if i < k {
      QuietTurn(src, goal, limits, p, i, k, answer, first);
      TurnTakesRow(src, goal, limits, p, i, answer, c);
      NextCheck(first, |src.paths|, i);
      BadAnswerInterrupts(src, goal, limits, p, i + 1, k, answer, first);
    }
  }

  // While a bad answer is still ahead, the next turn is quiet and its row takeable.
  lemma QuietTurn(src: Source, goal: Goal, limits: Limits, p: nat, i: nat, k: nat, answer: nat -> nat, first: nat)
    requires i < k && BadAnswerAfter(src, goal, limits, p, answer, first, k)
    ensures
      var c := CheckAt(first, |src.paths|, i);
      && p + i < |goal.rows| && RowSlots(goal.rows[p + i], src.paths).Some? && answer(c) == 0
      && Takeable(src, goal, limits, p, i) && Takeable(src, goal, limits, p, i + 1)
      && QuietBetween(answer, c + 1, c + 2 + |src.paths|)
  {
    hide Takeable, CheckAt, QuietBetween, RowSlots;
    var c, end := CheckAt(first, |src.paths|, i), CheckAt(first, |src.paths|, k);
    ChecksGrow(first, |src.paths|, i, k);
    LongerIsTakeable(src, goal, limits, p, i, k);
    LongerIsTakeable(src, goal, limits, p, i + 1, k);
    TakeableProjects(src, goal, limits, p, i, k);
    QuietInside(answer, first + 1, end, c, c + 2 + |src.paths|);
  }

  lemma QuietInside(answer: nat -> nat, lo: nat, hi: nat, from: nat, end: nat)
    requires QuietBetween(answer, lo, hi) && lo <= from < end <= hi
    ensures answer(from) == 0 && QuietBetween(answer, from + 1, end)
  {
  }

  lemma TakeableProjects(src: Source, goal: Goal, limits: Limits, p: nat, i: nat, k: nat)
    requires Takeable(src, goal, limits, p, k) && i < k
    ensures p + i < |goal.rows| && RowSlots(goal.rows[p + i], src.paths).Some?
  {
    hide RowSlots, WithinLimits;
    assert FitsAlone(goal.rows[p + i], src.paths);
  }

  // ---- One call

  /** The call is due to fill a batch and its probe gives a bad answer after some rows. */
  ghost predicate LosesRows(src: Source, s: State, call: Call)
    requires Coherent(s)
  {
    var t := Aimed(src, s);
    && s.phase == Ready && call.answer(call.first) == 0
    && t.goal.Some? && SlotsSuffice(call.limits, |src.paths|)
    && exists k :: 0 < k && BadAnswerAfter(src, t.goal.value, call.limits, s.position, call.answer, call.first, k)
  }

  /** Exactly such calls lose rows. */
  lemma LosesRowsExactly(src: Source, s: State, call: Call)
    requires Coherent(s)
    ensures LostIn(Next(src, s, call).reply) > 0 <==> LosesRows(src, s, call)
  {
    var t := Aimed(src, s);
    if s.phase == Ready && call.answer(call.first) == 0 && t.goal.Some? && SlotsSuffice(call.limits, |src.paths|) {
      LossOfFilling(src, t, call);
    }
    hide Fill, Aimed, BadAnswerAfter;
  }

  lemma NothingIsTakeable(src: Source, goal: Goal, limits: Limits, p: nat, answer: nat -> nat, first: nat)
    requires p <= |goal.rows|
    ensures Takeable(src, goal, limits, p, 0) && TakenRows(goal.rows, src.paths, p, 0) == []
    ensures CheckAt(first, |src.paths|, 0) == first + 1 && QuietBetween(answer, first + 1, first + 1)
  {
  }

  lemma LossOfFilling(src: Source, t: State, call: Call)
    requires t.goal.Some? && t.goal.value.Valid() && t.position <= |t.goal.value.rows|
    ensures
      var f := FillingOf(src, t, call);
      (f.end.Interrupted? && f.end.answer > 1 && |f.taken| > 0) <==>
      exists k :: 0 < k && BadAnswerAfter(src, t.goal.value, call.limits, t.position, call.answer, call.first, k)
  {
    hide Fill, Takeable, TakenRows, CheckAt, QuietBetween, BadAnswerAfter;
    var goal, f := t.goal.value, FillingOf(src, t, call);
    NothingIsTakeable(src, goal, call.limits, t.position, call.answer, call.first);
    InterruptedIsBadAnswer(src, goal, call.limits, t.position, 0, call.answer, call.first);
    if k: nat :| 0 < k && BadAnswerAfter(src, goal, call.limits, t.position, call.answer, call.first, k) {
      BadAnswerInterrupts(src, goal, call.limits, t.position, 0, k, call.answer, call.first);
      BadIsBad(src, goal, call.limits, t.position, call.answer, call.first, k);
    }
  }

  lemma BadIsBad(src: Source, goal: Goal, limits: Limits, p: nat, answer: nat -> nat, first: nat, k: nat)
    requires BadAnswerAfter(src, goal, limits, p, answer, first, k)
    ensures answer(CheckAt(first, |src.paths|, k)) > 1
  {
  }

  /** A bad answer while a row is being appended ends the cursor instead: the rows taken before it are
    * not handed over either, but nothing is ever delivered behind them. */
  lemma StoppedAppendIsFinal(src: Source, s: State, call: Call)
    requires Coherent(s)
    ensures
      var step := Next(src, s, call);
      step.reply.Denied? && step.reply.why.BrokenOff? && step.reply.why.filling.end.RowUnfit? ==>
        step.state.phase == Dead
  {
    hide Fill, Search;
  }

  lemma DeadDeliversNothing(src: Source, s: State, call: Call)
    requires Coherent(s) && s.phase == Dead
    ensures Next(src, s, call).state == s && RowsIn(Next(src, s, call).reply) == []
  {
    hide RunStep;
  }

  // ---- Runs

  ghost predicate NoCallLosesRows(src: Source, calls: seq<Call>) {
    forall i :: 0 <= i < |calls| ==> !LosesRows(src, Play(src, calls[..i]).state, calls[i])
  }

  lemma {:induction false} NothingLostIffNoCallLoses(src: Source, calls: seq<Call>)
    ensures Play(src, calls).lost == 0 <==> NoCallLosesRows(src, calls)
    decreases |calls|
  {
    hide LosesRows, Next, Play, NoCallLosesRows;
    if calls == [] {
      PlayNothing(src);
      NoCallNoLoss(src);
    } else {
      var init, call := calls[..|calls| - 1], calls[|calls| - 1];
      assert calls == init + [call];
      NothingLostIffNoCallLoses(src, init);
      LosesRowsExactly(src, Play(src, init).state, call);
      NoCallLosesExtends(src, init, call);
      PlayExtends(src, init, call);
    }
  }

  lemma NoCallNoLoss(src: Source)
    ensures NoCallLosesRows(src, [])
  {
  }

  lemma NoCallLosesExtends(src: Source, calls: seq<Call>, call: Call)
    ensures NoCallLosesRows(src, calls + [call]) <==>
              NoCallLosesRows(src, calls) && !LosesRows(src, Play(src, calls).state, call)
  {
    hide Play, LosesRows;
    var more := calls + [call];
    assert more[..|calls|] == calls && more[|calls|] == call;
    forall i | 0 <= i < |calls|
      ensures LosesRows(src, Play(src, more[..i]).state, more[i]) <==>
              LosesRows(src, Play(src, calls[..i]).state, calls[i])
    {
      assert more[..i] == calls[..i];
    }
  }

  /** While the cursor can go on or is done, what was delivered is gapless if and only if no call of the
    * run met a bad answer after taking rows; and then it is gapless in every other phase too. */
  lemma GaplessIffNoCallLosesRows(src: Source, calls: seq<Call>)
    ensures
      var r := Play(src, calls);
      && (r.state.phase == Ready || r.state.phase == Finished ==>
            (Projected(r.delivered, RowsOf(r.state), src.paths, 0, r.state.position) <==>
             NoCallLosesRows(src, calls)))
      && (NoCallLosesRows(src, calls) ==>
            Projected(r.delivered, RowsOf(r.state), src.paths, 0, |r.delivered|))
  {
    hide Play, NoCallLosesRows;
    NothingLostIffNoCallLoses(src, calls);
    GaplessIffNothingLost(src, calls);
  }
}
