/** What one batch holds: the longest prefix of the remaining rows within its limits. */
module StreamFill {
  import opened Json
  import opened Validation
  import opened ProjectionSpec
  import opened StreamTarget
  import opened StreamZipper
  import opened StreamBatch
  import opened StreamSpec

  ghost predicate WithinLimits(taken: seq<Row>, limits: Limits) {
    && |taken| <= limits.rowCapacity
    && Encoded(taken) <= limits.encodedLimit
    && |TextOf(Flat(taken))| <= limits.copyCapacity
  }

  // The completion of the source came out this way, whatever checks preceded it.
  ghost predicate CompletesWith(src: Source, goal: Goal, answer: nat -> nat, completion: Completion)
    requires goal.Valid()
  {
    exists k: nat :: Complete(goal.frames, src.closes, answer, k).0 == completion
  }

  /** A batch from row `p` on ends as `f` says. */
  ghost predicate EndsWell(src: Source, goal: Goal, limits: Limits, answer: nat -> nat, f: Filling)
    requires goal.Valid()
  {
    match f.end
    case Full => |f.taken| == limits.rowCapacity && f.position < |goal.rows|
    case Overflow =>
      && f.taken != [] && f.position < |goal.rows|
      && RowSlots(goal.rows[f.position], src.paths).Some?
      && !Fits(f.taken, RowSlots(goal.rows[f.position], src.paths).value, limits)
    case Drained => f.position == |goal.rows| && CompletesWith(src, goal, answer, Completed)
    case RowFailed => f.position < |goal.rows| && RowSlots(goal.rows[f.position], src.paths).None?
    case RowUnfit(RowTooLarge) =>
      && f.taken == [] && f.position < |goal.rows|
      && RowSlots(goal.rows[f.position], src.paths).Some?
      && !Fits([], RowSlots(goal.rows[f.position], src.paths).value, limits)
    case Unfinished(completion) =>
      completion != Completed && f.position == |goal.rows| && CompletesWith(src, goal, answer, completion)
    case Interrupted(answer) => answer != 0
    case RowUnfit(SizeOverflow) =>
      && f.position < |goal.rows|
      && RowSlots(goal.rows[f.position], src.paths).Some?
      && RowSize(RowSlots(goal.rows[f.position], src.paths).value) > UINT64_MAX
    case RowUnfit(how) => how.AppendStopped? && how.answer != 0
  }

  lemma AppendStaysWithin(taken: seq<Row>, row: Row, limits: Limits)
    ensures Encoded(taken + [row]) == Encoded(taken) + RowSize(row.slots)
    ensures |TextOf(Flat(taken + [row]))| == |TextOf(Flat(taken))| + |TextOf(row.slots)|
  {
    assert (taken + [row])[..|taken|] == taken;
    TextOfConcat(Flat(taken), row.slots);
  }

  /** A batch takes the projected rows in order, each once, stays within its limits at every step,
    * and when it ends it ends for the right reason. */
  lemma {:induction false} FillTakesRows(src: Source, goal: Goal, limits: Limits, position: nat, taken: seq<Row>,
                                         answer: nat -> nat, c: nat, lo: nat)
    requires goal.Valid() && position <= |goal.rows| && WithinLimits(taken, limits)
    requires Projected(taken, goal.rows, src.paths, lo, position)
    ensures
      var f := Fill(src, goal, limits, position, taken, answer, c);
      && taken <= f.taken && WithinLimits(f.taken, limits)
      && Projected(f.taken, goal.rows, src.paths, lo, f.position)
      && EndsWell(src, goal, limits, answer, f)
    decreases |goal.rows| - position
  {
    hide TextOf, Encoded, Flat, Complete, RowSlots;
    if |taken| < limits.rowCapacity && answer(c) == 0 && position < |goal.rows| {
      var slots := RowSlots(goal.rows[position], src.paths);
      if slots.Some? {
        var row := Row(position, slots.value);
        var appended := AppendRow(taken, slots.value, limits, answer, c + 1);
        if appended.0 == Appended {
          AppendStaysWithin(taken, row, limits);
          FillTakesRows(src, goal, limits, position + 1, taken + [row], answer, appended.1, lo);
        }
      }
    }
  }

  // ---- The longest prefix

  lemma {:induction false} EncodedGrows(rows: seq<Row>, n: nat)
    requires n <= |rows|
    ensures Encoded(rows[..n]) <= Encoded(rows) && |TextOf(Flat(rows[..n]))| <= |TextOf(Flat(rows))|
    decreases |rows|
  {
    if n == |rows| {
      assert rows[..n] == rows;
    } else {
      var less := rows[..|rows| - 1];
      assert rows[..n] == less[..n];
      EncodedGrows(less, n);
      assert rows == less + [rows[|rows| - 1]];
      AppendStaysWithin(less, rows[|rows| - 1], Limits(0, 0, 0, 0));
    }
  }

  lemma ProjectedAgree(a: seq<Row>, b: seq<Row>, rows: seq<Value>, paths: seq<Path>, lo: nat)
    requires Projected(a, rows, paths, lo, lo + |a|) && Projected(b, rows, paths, lo, lo + |b|) && |a| <= |b|
    ensures a == b[..|a|]
  {
    forall k | 0 <= k < |a| ensures a[k] == b[k] {
      assert RowSlots(rows[lo + k], paths) == Some(a[k].slots);
      assert RowSlots(rows[lo + k], paths) == Some(b[k].slots);
    }
  }

  lemma LongerRunFits(taken: seq<Row>, other: seq<Row>, limits: Limits)
    requires |taken| < |other| && taken == other[..|taken|] && WithinLimits(other, limits)
    ensures Fits(taken, other[|taken|].slots, limits)
  {
    var n := |taken|;
    assert other[..n + 1] == taken + [other[n]];
    AppendStaysWithin(taken, other[n], limits);
    EncodedGrows(other, n + 1);
  }

  /** No run of the remaining rows that stays within the limits is longer than a successful batch. */
  lemma BatchIsLongestPrefix(src: Source, goal: Goal, limits: Limits, position: nat, answer: nat -> nat, c: nat,
                             other: seq<Row>)
    requires goal.Valid() && position <= |goal.rows|
    requires position + |other| <= |goal.rows| && WithinLimits(other, limits)
    requires Projected(other, goal.rows, src.paths, position, position + |other|)
    ensures
      var f := Fill(src, goal, limits, position, [], answer, c);
      f.end == Full || f.end == Overflow || f.end == Drained ==> |other| <= |f.taken| && other == f.taken[..|other|]
  {
    var f := Fill(src, goal, limits, position, [], answer, c);
    FillTakesRows(src, goal, limits, position, [], answer, c, position);
    hide *;
    if f.end == Full || f.end == Overflow || f.end == Drained {
      EndIsLongest(src, goal, limits, position, answer, f, other);
    }
  }

  lemma EndIsLongest(src: Source, goal: Goal, limits: Limits, position: nat, answer: nat -> nat, f: Filling,
                     other: seq<Row>)
    requires goal.Valid() && position + |other| <= |goal.rows| && WithinLimits(other, limits)
    requires Projected(other, goal.rows, src.paths, position, position + |other|)
    requires Projected(f.taken, goal.rows, src.paths, position, f.position) && EndsWell(src, goal, limits, answer, f)
    requires f.end == Full || f.end == Overflow || f.end == Drained
    ensures |other| <= |f.taken| && other == f.taken[..|other|]
  {
    hide TextOf, Flat, Encoded, RowSlots, Fits;
    if |other| <= |f.taken| {
      ProjectedAgree(other, f.taken, goal.rows, src.paths, position);
    } else {
      ProjectedAgree(f.taken, other, goal.rows, src.paths, position);
      LongerRunFits(f.taken, other, limits);
    }
  }

  /** With no cancellation and projecting rows, a batch can only fail on a row too large for any
    * batch or on the rest of the source. */
  lemma {:induction false} QuietBatchEnds(src: Source, goal: Goal, limits: Limits, position: nat, taken: seq<Row>,
                                          answer: nat -> nat, c: nat)
    requires goal.Valid() && position <= |goal.rows| && |taken| <= limits.rowCapacity
    requires forall k: nat :: answer(k) == 0
    requires forall i :: position <= i < |goal.rows| ==> RowSlots(goal.rows[i], src.paths).Some?
    ensures
      var f := Fill(src, goal, limits, position, taken, answer, c);
      || f.end == Full || f.end == Overflow || f.end == Drained
      || f.end == RowUnfit(RowTooLarge) || f.end == RowUnfit(SizeOverflow)
      || f.end.Unfinished?
    decreases |goal.rows| - position
  {
    hide RowSlots, Complete;
    if |taken| < limits.rowCapacity && position < |goal.rows| {
      var slots := RowSlots(goal.rows[position], src.paths).value;
      var appended := AppendRow(taken, slots, limits, answer, c + 1);
      if appended.0 == Appended {
        QuietBatchEnds(src, goal, limits, position + 1, taken + [Row(position, slots)], answer, appended.1);
      }
    }
  }
}
